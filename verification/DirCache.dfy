/**
 * The directory cache of gnumake/src/dir.c: directories are read only as far as the
 * questions about them require, and all over again once a command has been run.
 */
module DirCache {

  import opened Wrappers

  /** The file system: which directory a name denotes, whether it can be opened, and what it holds. */
  datatype Disk = Disk(stat: string -> Option<nat>, opens: nat -> bool, entries: nat -> seq<string>)

  ghost function Visible(disk: Disk, ino: nat): set<string> {
    if disk.opens(ino) then set f | f in disk.entries(ino) else {}
  }

  /** struct directory_contents: files maps names to the impossible flag, stream is what is yet to be read. */
  datatype Contents = Contents(counter: nat, files: Option<map<string, bool>>, stream: Option<seq<string>>)

  const CLEAR := Contents(0, None, None)

  /** The contents pointer of a struct directory; private contents are not in the contents table. */
  datatype Link = Null | Shared(ino: nat) | Private(contents: Contents)

  datatype Entry = Entry(counter: nat, link: Link)

  const MAX_OPEN_DIRECTORIES := 10

  predicate Unread(c: Contents, f: string) {
    c.stream.Some? && f in c.stream.value
  }

  predicate Real(c: Contents, f: string) {
    c.files.Some? && f in c.files.value && !c.files.value[f]
  }

  predicate Marked(c: Contents, f: string) {
    c.files.Some? && f in c.files.value && c.files.value[f]
  }

  /** What is cached and what is yet to be read make up the directory. */
  ghost predicate Fresh(c: Contents, visible: set<string>) {
    && (forall f :: Real(c, f) || Unread(c, f) ==> f in visible)
    && (forall f :: f in visible ==> Real(c, f) || Marked(c, f) || Unread(c, f))
    && (c.files.None? ==> c.stream.None?)
  }

  ghost function Open(contents: map<nat, Contents>): set<nat> {
    set i | i in contents && contents[i].stream.Some?
  }

  lemma OpenUpdate(contents: map<nat, Contents>, i: nat, c: Contents)
    ensures Open(contents[i := c]) == if c.stream.Some? then Open(contents) + {i} else Open(contents) - {i}
    ensures |Open(contents[i := c])| ==
      |Open(contents)| + (if c.stream.Some? then 1 else 0) -
      (if i in contents && contents[i].stream.Some? then 1 else 0)
  {
    var before, after := Open(contents), Open(contents[i := c]);
    assert after == if c.stream.Some? then before + {i} else before - {i};
    assert i in before <==> i in contents && contents[i].stream.Some?;
  }

  class Cache {
    var dirs: map<string, Entry>
    var contents: map<nat, Contents>
    var openDirectories: nat
    var commandCount: nat
    var disk: Disk

    /** The invariant that every operation keeps; allowed bounds the open streams. */
    ghost predicate Inv(allowed: nat)
      reads this
    {
      && commandCount >= 1
      && openDirectories == |Open(contents)| <= allowed
      && (forall i :: i in contents ==> Sane(contents[i], commandCount))
      && (forall i :: i in contents && contents[i].counter == commandCount ==> Fresh(contents[i], Visible(disk, i)))
      && (forall d :: d in dirs ==> dirs[d].counter <= commandCount && Linked(dirs[d].link))
      && (forall d :: d in dirs && dirs[d].link.Null? && dirs[d].counter == commandCount ==> disk.stat(d) == None)
    }

    static predicate Sane(c: Contents, now: nat) {
      c.counter <= now && (c.counter == 0 ==> c.files.None? && c.stream.None?)
    }

    ghost predicate Linked(link: Link)
      reads this`contents
    {
      match link
      case Null => true
      case Shared(i) => i in contents
      case Private(c) => c.counter == 0 && c.stream.None?
    }

    ghost predicate Valid()
      reads this
    {
      Inv(MAX_OPEN_DIRECTORIES - 1)
    }

    constructor (disk: Disk)
      ensures Valid() && dirs == map[] && contents == map[] && this.disk == disk
    {
      dirs, contents, openDirectories, commandCount := map[], map[], 0, 1;
      this.disk := disk;
    }

    /** clear_directory_contents */
    method ClearContents(i: nat)
      requires Valid() && i in contents
      modifies this`contents, this`openDirectories
      ensures Valid() && contents == old(contents)[i := CLEAR]
      ensures old(contents[i].counter) != commandCount ==> forall j, f :: MarkedNow(j, f) <==> old(MarkedNow(j, f))
    {
      OpenUpdate(contents, i, CLEAR);
      if contents[i].stream.Some? {
        openDirectories := openDirectories - 1;
      }
      contents := contents[i := CLEAR];
    }

    /** Read on until the file is found; without a file, to the end. */
    static method Drain(c0: Contents, file: Option<string>, ghost visible: set<string>)
      returns (c: Contents, found: bool)
      requires c0.files.Some? && c0.stream.Some? && Fresh(c0, visible)
      ensures c.files.Some? && c.stream.Some? && c.counter == c0.counter && Fresh(c, visible)
      ensures found <==> file.Some? && Unread(c0, file.value)
      ensures !found ==> c.stream.value == []
      ensures forall f :: Marked(c, f) ==> Marked(c0, f)
    {
      c, found := c0, false;
      while c.stream.value != [] && !found
        invariant c.files.Some? && c.stream.Some? && c.counter == c0.counter && Fresh(c, visible)
        invariant forall f :: Marked(c, f) ==> Marked(c0, f)
        invariant found ==> file.Some? && Unread(c0, file.value)
        invariant !found && file.Some? ==> (Unread(c, file.value) <==> Unread(c0, file.value))
        decreases |c.stream.value| + if found then 0 else 1
      {
        found := file == Some(c.stream.value[0]);
        c := Cached(c, visible);
      }
    }

    /** The reading part of dir_contents_file_exists_p; the stream is closed when its end is reached. */
    method Read(i: nat, file: Option<string>) returns (found: bool)
      requires Inv(MAX_OPEN_DIRECTORIES) && i in contents && contents[i].counter == commandCount
      requires contents[i].files.Some? && contents[i].stream.Some?
      modifies this`contents, this`openDirectories
      ensures Inv(if file.None? then MAX_OPEN_DIRECTORIES - 1 else old(openDirectories))
      ensures found <==> file.Some? && Unread(old(contents[i]), file.value)
      ensures i in contents && contents == old(contents)[i := contents[i]] && contents[i].counter == commandCount
      ensures forall f :: Marked(contents[i], f) ==> Marked(old(contents[i]), f)
    {
      var c;
      c, found := Drain(contents[i], file, Visible(disk, i));
      if !found {
        c := c.(stream := None);
      }
      Exchange(i, c);
    }

    /** Put contents in place of others that are as fresh, closing the stream if they have none. */
    method Exchange(i: nat, c: Contents)
      requires Inv(MAX_OPEN_DIRECTORIES) && i in contents && contents[i].counter == c.counter == commandCount
      requires Fresh(c, Visible(disk, i)) && (c.stream.Some? ==> contents[i].stream.Some?)
      modifies this`contents, this`openDirectories
      ensures contents == old(contents)[i := c] && Inv(openDirectories)
      ensures openDirectories == old(openDirectories) - if old(contents[i]).stream.Some? && c.stream.None? then 1 else 0
    {
      OpenUpdate(contents, i, c);
      if contents[i].stream.Some? && c.stream.None? {
        openDirectories := openDirectories - 1;
      }
      contents := contents[i := c];
    }

    /** Enter the next name of the stream in the table. */
    static function Cached(c: Contents, ghost visible: set<string>): (r: Contents)
      requires c.files.Some? && c.stream.Some? && c.stream.value != [] && Fresh(c, visible)
      ensures r.files.Some? && r.stream == Some(c.stream.value[1..]) && r.counter == c.counter && Fresh(r, visible)
      ensures forall f :: Unread(c, f) <==> f == c.stream.value[0] || Unread(r, f)
      ensures forall f :: Marked(r, f) ==> Marked(c, f)
    {
      c.(files := Some(c.files.value[c.stream.value[0] := false]), stream := Some(c.stream.value[1..]))
    }

    /** f is marked impossible in directory i, and the mark counts. */
    ghost predicate MarkedNow(i: nat, f: string)
      reads this
    {
      i in contents && contents[i].counter == commandCount && Marked(contents[i], f)
    }

    /** Directory i has been read, or at least opened, since the last command. */
    ghost predicate ReadNow(i: nat)
      reads this
    {
      i in contents && contents[i].counter == commandCount
    }

    /** No command has been run since the entry was filled in. */
    predicate Current(e: Entry)
      reads this
      requires Linked(e.link)
    {
      commandCount == match e.link
        case Null => e.counter
        case Shared(i) => contents[i].counter
        case Private(c) => c.counter
    }

    /** Read directory i anew if a command has been run since it was opened. */
    method Reseed(i: nat)
      requires Valid()
      modifies this`contents, this`openDirectories
      ensures Valid() && i in contents && contents[i].counter == commandCount
      ensures contents == old(contents)[i := contents[i]]
      ensures forall j, f :: MarkedNow(j, f) <==> old(MarkedNow(j, f))
      ensures old(i in contents && contents[i].counter == commandCount) ==> contents == old(contents)
    {
      if i in contents && contents[i].counter == commandCount { return; }
      if i in contents && contents[i].counter != 0 {
        ClearContents(i);
      }
      if !disk.opens(i) {
        Store(i, Contents(commandCount, None, None));
      } else {
        OpenStream(i);
      }
    }

    /** Open a cleared directory; when too many are open, read it to the end at once. */
    method OpenStream(i: nat)
      requires Valid() && (i in contents ==> contents[i] == CLEAR) && disk.opens(i)
      modifies this`contents, this`openDirectories
      ensures Valid() && i in contents && contents[i].counter == commandCount
      ensures contents == old(contents)[i := contents[i]]
      ensures forall f :: !Marked(contents[i], f)
    {
      Store(i, Contents(commandCount, Some(map[]), Some(disk.entries(i))));
      openDirectories := openDirectories + 1;
      if openDirectories == MAX_OPEN_DIRECTORIES {
        var found := Read(i, None);
      }
    }

    /** Put fresh contents in place of cleared ones; the caller counts the stream. */
    method Store(i: nat, c: Contents)
      requires Valid() && (i in contents ==> contents[i] == CLEAR) && c.counter == commandCount
      requires Fresh(c, Visible(disk, i))
      modifies this`contents
      ensures contents == old(contents)[i := c]
      ensures |Open(contents)| == openDirectories + if c.stream.Some? then 1 else 0
      ensures c.stream.None? ==> Valid()
    {
      OpenUpdate(contents, i, c);
      contents := contents[i := c];
    }

    /** What a name denotes on the disk. */
    static function Denoted(disk: Disk, name: string): Link {
      match disk.stat(name)
      case None => Null
      case Some(i) => Shared(i)
    }

    /** find_directory: an entry that is current stays as it is, any other one is filled in from the disk. */
    method FindDirectory(name: string) returns (link: Link)
      requires Valid()
      modifies this`dirs, this`contents, this`openDirectories
      ensures Valid() && name in dirs && dirs == old(dirs)[name := dirs[name]] && dirs[name].link == link
      ensures Current(dirs[name])
      ensures old(name in dirs && Current(dirs[name])) ==> dirs == old(dirs) && contents == old(contents)
      ensures !old(name in dirs && Current(dirs[name])) ==> link == Denoted(disk, name)
      ensures forall i, f :: MarkedNow(i, f) <==> old(MarkedNow(i, f))
      ensures forall i :: ReadNow(i) <==> old(ReadNow(i)) || link == Shared(i)
    {
      if name in dirs {
        if Current(dirs[name]) { return dirs[name].link; }
        if dirs[name].link.Shared? {
          ClearContents(dirs[name].link.ino);
        }
      }
      link := Fill(name);
    }

    /** The entry is filled in from the disk. */
    method Fill(name: string) returns (link: Link)
      requires Valid()
      modifies this`dirs, this`contents, this`openDirectories
      ensures Valid() && dirs == old(dirs)[name := Entry(commandCount, link)] && link == Denoted(disk, name)
      ensures link.Shared? ==> ReadNow(link.ino)
      ensures forall i, f :: MarkedNow(i, f) <==> old(MarkedNow(i, f))
      ensures forall i :: ReadNow(i) <==> old(ReadNow(i)) || link == Shared(i)
    {
      link := Denoted(disk, name);
      if link.Shared? {
        Reseed(link.ino);
      }
      dirs := dirs[name := Entry(commandCount, link)];
    }

    /**
     * The entry passes for current although its name has come to denote something else: its
     * contents were read anew, by another name, since the last command.
     */
    ghost predicate Stale(name: string)
      reads this
    {
      && name in dirs && dirs[name].link.Shared? && ReadNow(dirs[name].link.ino)
      && disk.stat(name) != Some(dirs[name].link.ino)
    }

    /** dir_file_exists_p: a file exists if the directory that the name is linked to has it, and it is not marked. */
    method FileExists(name: string, file: string) returns (answer: bool, link: Link)
      requires Valid()
      modifies this`dirs, this`contents, this`openDirectories
      ensures Valid() && name in dirs && dirs == old(dirs)[name := dirs[name]] && dirs[name].link == link
      ensures Current(dirs[name])
      ensures old(name in dirs && Current(dirs[name])) ==> dirs == old(dirs)
      ensures !old(name in dirs && Current(dirs[name])) ==> link == Denoted(disk, name)
      ensures link == Denoted(disk, name) <==> !old(Stale(name))
      ensures forall i :: ReadNow(i) <==> old(ReadNow(i)) || link == Shared(i)
      ensures forall i, f :: MarkedNow(i, f) ==> old(MarkedNow(i, f))
      ensures file != "" ==>
        (answer <==> link.Shared? && file in Visible(disk, link.ino) && !old(MarkedNow(link.ino, file)))
    {
      link := FindDirectory(name);
      answer := false;
      if link.Shared? {
        answer := ContentsFileExists(link.ino, file);
      }
    }

    /** dir_contents_file_exists_p */
    method ContentsFileExists(i: nat, file: string) returns (answer: bool)
      requires Valid() && i in contents && contents[i].counter == commandCount
      modifies this`contents, this`openDirectories
      ensures Valid() && contents.Keys == old(contents).Keys && contents[i].counter == commandCount
      ensures forall j, f :: MarkedNow(j, f) ==> old(MarkedNow(j, f))
      ensures forall j :: ReadNow(j) <==> old(ReadNow(j))
      ensures file != "" ==> (answer <==> file in Visible(disk, i) && !old(MarkedNow(i, file)))
    {
      var c := contents[i];
      if c.files.None? { return false; }
      if file == "" { return true; }
      if file in c.files.value { return !c.files.value[file]; }
      if c.stream.None? { return false; }
      answer := Read(i, Some(file));
    }

    /** file_impossible */
    method MarkImpossible(name: string, file: string)
      requires Valid()
      modifies this`dirs, this`contents, this`openDirectories
      ensures Valid() && name in dirs && dirs == old(dirs)[name := dirs[name]]
      ensures forall i, f :: MarkedNow(i, f) <==> old(MarkedNow(i, f)) || (f == file && dirs[name].link == Shared(i))
      ensures forall i :: ReadNow(i) <==> old(ReadNow(i)) || dirs[name].link == Shared(i)
      ensures !dirs[name].link.Null?
      ensures old(name in dirs && dirs[name].link.Shared? && Current(dirs[name])) ==> dirs == old(dirs)
      ensures !old(name in dirs && dirs[name].link.Shared? && Current(dirs[name])) ==>
        if disk.stat(name).Some? then dirs[name].link == Denoted(disk, name) else dirs[name].link.Private?
    {
      var link := FindDirectory(name);
      if link.Shared? {
        MarkIn(link.ino, file);
      } else {
        dirs := dirs[name := dirs[name].(link := Private(Contents(0, Some(map[file := true]), None)))];
      }
    }

    /** Enter the file as impossible, in place of whatever was entered for it. */
    method MarkIn(i: nat, file: string)
      requires Valid() && i in contents && contents[i].counter == commandCount
      modifies this`contents, this`openDirectories
      ensures Valid() && contents.Keys == old(contents).Keys
      ensures forall j, f :: MarkedNow(j, f) <==> old(MarkedNow(j, f)) || (j == i && f == file)
      ensures forall j :: ReadNow(j) <==> old(ReadNow(j))
    {
      Exchange(i, WithMark(contents[i], file, Visible(disk, i)));
    }

    static function WithMark(c: Contents, file: string, ghost visible: set<string>): (r: Contents)
      requires Fresh(c, visible)
      ensures Fresh(r, visible) && r.counter == c.counter && r.stream == c.stream
      ensures forall f :: Marked(r, f) <==> Marked(c, f) || f == file
    {
      c.(files := Some((if c.files.Some? then c.files.value else map[])[file := true]))
    }

    /** A command has been run: the disk may have changed. */
    method RunCommand(disk': Disk)
      requires Valid()
      modifies this`commandCount, this`disk
      ensures Valid() && disk == disk' && commandCount == old(commandCount) + 1
      ensures forall i :: !ReadNow(i)
    {
      commandCount := commandCount + 1;
      disk := disk';
    }

    /** The view is what the tables say about links and about directories that have been read. */
    ghost predicate Matches(view: View)
      reads this
    {
      && (forall d :: d in view.links <==> d in dirs && dirs[d].link.Shared?)
      && (forall d :: d in view.links ==> dirs[d].link == Shared(view.links[d]))
      && (forall i :: i in view.read <==> ReadNow(i))
    }

    method Ask(name: string, file: string, ghost view: View) returns (answer: bool)
      requires Valid() && Matches(view)
      modifies this`dirs, this`contents, this`openDirectories
      ensures Valid() && Matches(Visit(view, disk, name)) && forall i, f :: MarkedNow(i, f) ==> old(MarkedNow(i, f))
      ensures file != "" ==> (answer <==>
        InDirectory(disk, Used(view, disk, name), file) && !old(MarkedNow(Used(view, disk, name).value, file)))
    {
      var link;
      answer, link := FileExists(name, file);
    }

    method Mark(name: string, file: string, ghost view: View)
      requires Valid() && Matches(view)
      modifies this`dirs, this`contents, this`openDirectories
      ensures Valid() && Matches(Visit(view, disk, name))
      ensures forall i: nat, f :: MarkedNow(i, f) <==>
        old(MarkedNow(i, f)) || (f == file && Used(view, disk, name) == Some(i))
    {
      MarkImpossible(name, file);
    }
  }

  /** Which directories the names are linked to, and which have been read since the last command. */
  datatype View = View(links: map<string, nat>, read: set<nat>)

  /** The directory a question is about: a link that leads to a directory read since the last command is believed. */
  function Used(view: View, disk: Disk, name: string): Option<nat> {
    if name in view.links && view.links[name] in view.read then Some(view.links[name]) else disk.stat(name)
  }

  function Visit(view: View, disk: Disk, name: string): View {
    match Used(view, disk, name)
    case None => View(view.links - {name}, view.read)
    case Some(i) => View(view.links[name := i], view.read + {i})
  }

  ghost predicate InDirectory(disk: Disk, ino: Option<nat>, file: string) {
    ino.Some? && file in Visible(disk, ino.value)
  }

  datatype Op = Ask(dir: string, file: string) | Impossible(dir: string, file: string) | Command(disk: Disk)

  /** The disk when the first n operations have been done. */
  ghost function DiskAt(disk: Disk, ops: seq<Op>, n: nat): Disk
    requires n <= |ops|
  {
    if n == 0 then disk else if ops[n - 1].Command? then ops[n - 1].disk else DiskAt(disk, ops, n - 1)
  }

  ghost function ViewAt(disk: Disk, ops: seq<Op>, n: nat): View
    requires n <= |ops|
  {
    if n == 0 then View(map[], {})
    else
      var view := ViewAt(disk, ops, n - 1);
      if ops[n - 1].Command? then view.(read := {}) else Visit(view, DiskAt(disk, ops, n - 1), ops[n - 1].dir)
  }

  /** The directory that operation n is about. */
  ghost function UsedAt(disk: Disk, ops: seq<Op>, n: nat): Option<nat>
    requires n < |ops| && !ops[n].Command?
  {
    Used(ViewAt(disk, ops, n), DiskAt(disk, ops, n), ops[n].dir)
  }

  /** The marks made since the last command: directory and file. */
  ghost function MarksAt(disk: Disk, ops: seq<Op>, n: nat): set<(nat, string)>
    requires n <= |ops|
  {
    if n == 0 || ops[n - 1].Command? then {}
    else
      var marks, used := MarksAt(disk, ops, n - 1), UsedAt(disk, ops, n - 1);
      if ops[n - 1].Impossible? && used.Some? then marks + {(used.value, ops[n - 1].file)} else marks
  }

  /**
   * An answer that is right about a directory, except that a file may be denied that has been
   * marked impossible, in that directory, since the last command.
   */
  ghost predicate RightAbout(disk: Disk, ops: seq<Op>, n: nat, ino: Option<nat>, answer: bool)
    requires n < |ops| && ops[n].Ask?
  {
    ops[n].file != "" ==>
      && (answer ==> InDirectory(DiskAt(disk, ops, n), ino, ops[n].file))
      && (InDirectory(DiskAt(disk, ops, n), ino, ops[n].file) && (ino.value, ops[n].file) !in MarksAt(disk, ops, n) ==>
            answer)
  }

  /** The marks there are have been made by the first n operations, since the last command. */
  ghost predicate Accounted(cache: Cache, disk: Disk, ops: seq<Op>, n: nat)
    requires n <= |ops|
    reads cache
  {
    forall i: nat, f :: cache.MarkedNow(i, f) ==> (i, f) in MarksAt(disk, ops, n)
  }

  method Step(ghost disk: Disk, ops: seq<Op>, n: nat, cache: Cache) returns (answer: bool)
    requires n < |ops| && cache.disk == DiskAt(disk, ops, n)
    requires cache.Valid() && cache.Matches(ViewAt(disk, ops, n)) && Accounted(cache, disk, ops, n)
    modifies cache
    ensures cache.Valid() && cache.Matches(ViewAt(disk, ops, n + 1)) && Accounted(cache, disk, ops, n + 1)
    ensures cache.disk == DiskAt(disk, ops, n + 1)
    ensures ops[n].Ask? ==> RightAbout(disk, ops, n, UsedAt(disk, ops, n), answer)
  {
    answer := false;
    match ops[n]
    case Ask(dir, file) => answer := cache.Ask(dir, file, ViewAt(disk, ops, n));
    case Impossible(dir, file) => cache.Mark(dir, file, ViewAt(disk, ops, n));
    case Command(disk') => cache.RunCommand(disk');
  }

  ghost predicate AllRight(disk: Disk, ops: seq<Op>, answers: seq<bool>) {
    |answers| <= |ops| &&
    forall n :: 0 <= n < |answers| && ops[n].Ask? ==> RightAbout(disk, ops, n, UsedAt(disk, ops, n), answers[n])
  }

  lemma OneMoreRight(disk: Disk, ops: seq<Op>, answers: seq<bool>, answer: bool)
    requires AllRight(disk, ops, answers) && |answers| < |ops|
    requires ops[|answers|].Ask? ==> RightAbout(disk, ops, |answers|, UsedAt(disk, ops, |answers|), answer)
    ensures AllRight(disk, ops, answers + [answer])
  {
    forall n | 0 <= n < |answers| + 1 && ops[n].Ask?
      ensures RightAbout(disk, ops, n, UsedAt(disk, ops, n), (answers + [answer])[n])
    {
      assert n < |answers| ==> RightAbout(disk, ops, n, UsedAt(disk, ops, n), answers[n]);
    }
  }

  /** Any run: every answer is right about the directory that UsedAt gives. */
  method Run(disk: Disk, ops: seq<Op>) returns (answers: seq<bool>, cache: Cache)
    ensures cache.Valid() && |answers| == |ops| && AllRight(disk, ops, answers)
    ensures |Open(cache.contents)| <= 9
  {
    cache := new Cache(disk);
    answers := [];
    for n := 0 to |ops|
      invariant cache.Valid() && cache.Matches(ViewAt(disk, ops, n)) && fresh(cache)
      invariant cache.disk == DiskAt(disk, ops, n)
      invariant Accounted(cache, disk, ops, n) && |answers| == n && AllRight(disk, ops, answers)
    {
      var answer := Step(disk, ops, n, cache);
      OneMoreRight(disk, ops, answers, answer);
      answers := answers + [answer];
    }
  }

  /** A name that denotes a directory goes on to denote the same one. */
  ghost predicate Keeps(before: Disk, after: Disk) {
    forall name :: before.stat(name).Some? ==> after.stat(name) == before.stat(name)
  }

  ghost predicate Steady(disk: Disk, ops: seq<Op>) {
    forall n :: 0 <= n < |ops| && ops[n].Command? ==> Keeps(DiskAt(disk, ops, n), ops[n].disk)
  }

  lemma {:induction false} LinksSteady(disk: Disk, ops: seq<Op>, n: nat, name: string)
    requires Steady(disk, ops) && n <= |ops|
    ensures name in ViewAt(disk, ops, n).links ==>
      DiskAt(disk, ops, n).stat(name) == Some(ViewAt(disk, ops, n).links[name])
  {
    if n > 0 {
      LinksSteady(disk, ops, n - 1, name);
    }
  }

  /** As long as directories stay where they are, that is the directory the name denotes. */
  lemma {:induction false} UsedIsDenoted(disk: Disk, ops: seq<Op>, n: nat)
    requires Steady(disk, ops) && n < |ops| && !ops[n].Command?
    ensures UsedAt(disk, ops, n) == DiskAt(disk, ops, n).stat(ops[n].dir)
  {
    LinksSteady(disk, ops, n, ops[n].dir);
  }

  function Moved(second: nat): Disk {
    Disk(name => if name == "a" then Some(1) else if name == "b" then Some(second) else None,
         i => true,
         i => if i == 1 then ["x"] else [])
  }

  /** Both names have been asked about, and are linked to directory 1. */
  method AskBoth() returns (cache: Cache)
    ensures fresh(cache) && cache.Valid() && "b" in cache.dirs && cache.dirs["b"].link == Shared(1)
  {
    cache := new Cache(Moved(1));
    var answer, link := cache.FileExists("a", "x");
    answer, link := cache.FileExists("b", "x");
  }

  /**
   * Without that proviso an answer can be wrong: a and b denote the same directory, a command
   * makes b denote another one, and the entry of b passes for current once a has been asked about.
   */
  method StaleAlias() returns (answer: bool)
    ensures answer && !InDirectory(Moved(2), Moved(2).stat("b"), "x")
  {
    var cache := AskBoth();
    cache.RunCommand(Moved(2));
    var first, link := cache.FileExists("a", "x");
    assert cache.dirs["b"].link == Shared(1);
    answer, link := cache.FileExists("b", "x");
  }
}
