/**
 * The job scheduler of gnumake/src/job.c: the lists of running and waiting children, the
 * count of job slots in use, and the jobserver tokens. What the operating system answers
 * (which child has died, whether the load is too high, ...) is a World.
 */
module Scheduler {

  import opened Wrappers

  /** A struct child: lines counts the command lines still to run, started is pid > 0. */
  datatype Child = Child(file: nat, lines: nat, started: bool, jobslot: bool, dontcare: bool)

  /**
   * The answers of the operating system, by the number of questions asked so far; ignored says
   * whether a failure counts, of a command line that was started or of one that could not be.
   */
  datatype World = World(
    remote: nat -> bool,
    loadHigh: nat -> bool,
    skip: nat -> bool,
    question: nat -> bool,
    forks: nat -> bool,
    nobodyDead: nat -> bool,
    who: nat -> nat,
    succeeded: nat -> bool,
    ignored: (nat, bool) -> bool,
    wakeups: nat)

  /** Nobody dies, and nothing runs remotely. */
  ghost predicate Quiet(world: World) {
    forall t :: world.nobodyDead(t) && !world.remote(t)
  }

  /** Every command line has something to run, and can be started or cannot. */
  ghost predicate Forks(world: World, can: bool) {
    forall t :: !world.skip(t) && !world.question(t) && world.forks(t) == can
  }

  ghost predicate Calm(world: World) {
    Quiet(world) && Forks(world, true)
  }

  /** No failure to start a command line is ignored. */
  ghost predicate Unforgiving(world: World) {
    forall t :: !world.ignored(t, false)
  }

  /** Every one is. */
  ghost predicate Forgiving(world: World) {
    forall t :: world.ignored(t, false)
  }

  ghost predicate Load(world: World, high: bool) {
    forall t :: world.loadHigh(t) == high
  }

  /** The child running its next command line there is something to run for, if there is one. */
  function Launch(world: World, t: nat, c: Child): (r: Option<Child>)
    ensures r.Some? ==> r.value.file == c.file && r.value.jobslot == c.jobslot && r.value.dontcare == c.dontcare
    ensures r.Some? ==> r.value.lines < c.lines
    decreases c.lines
  {
    if c.lines == 0 then None
    else
      var next := c.(lines := c.lines - 1);
      if world.skip(t + 1) then Launch(world, t + 1, next)
      else if world.question(t + 1) then None
      else Some(next.(started := world.forks(t + 1)))
  }

  /**
   * The command line asked about at u has something to run, and those before it, back to the first
   * one, asked about right after t, turned out to have nothing.
   */
  ghost predicate RunsAt(world: World, t: nat, lines: nat, u: nat) {
    t < u <= t + lines && (forall j: nat :: t < j < u ==> world.skip(j)) && !world.skip(u) && !world.question(u)
  }

  /** It is the one that is launched, and nothing is if there is none. */
  lemma {:induction false} LaunchIff(world: World, t: nat, c: Child)
    ensures Launch(world, t, c).Some? ==> exists u: nat :: RunsAt(world, t, c.lines, u)
    ensures forall u: nat :: RunsAt(world, t, c.lines, u) ==>
      Launch(world, t, c) == Some(c.(lines := t + c.lines - u, started := world.forks(u)))
    decreases c.lines
  {
    if c.lines > 0 {
      var next := c.(lines := c.lines - 1);
      if world.skip(t + 1) {
        LaunchIff(world, t + 1, next);
        forall u: nat ensures RunsAt(world, t, c.lines, u) <==> RunsAt(world, t + 1, next.lines, u) {
        }
        if Launch(world, t + 1, next).Some? {
          var u: nat :| RunsAt(world, t + 1, next.lines, u);
          assert RunsAt(world, t, c.lines, u);
        }
      } else if Launch(world, t, c).Some? {
        assert RunsAt(world, t, c.lines, t + 1);
      }
    }
  }

  /** There, the first command line left is the one. */
  lemma LaunchForks(world: World, c: Child, can: bool)
    ensures Forks(world, can) && c.lines > 0 ==>
      forall t: nat :: Launch(world, t, c) == Some(c.(lines := c.lines - 1, started := can))
  {
  }

  /** How many of the children are for file f. */
  ghost function Times(cs: seq<Child>, f: nat): nat {
    if cs == [] then 0 else Times(cs[1..], f) + if cs[0].file == f then 1 else 0
  }

  /** How many of them hold a job slot. */
  ghost function Slots(cs: seq<Child>): nat {
    if cs == [] then 0 else (if cs[0].jobslot then 1 else 0) + Slots(cs[1..])
  }

  /** How many of them have a process. */
  ghost function Running(cs: seq<Child>): nat {
    if cs == [] then 0 else (if cs[0].started then 1 else 0) + Running(cs[1..])
  }

  /** How many of them have a process and hold no job slot. */
  ghost function Loose(cs: seq<Child>): nat {
    if cs == [] then 0 else (if cs[0].started && !cs[0].jobslot then 1 else 0) + Loose(cs[1..])
  }

  lemma {:induction false} RunningHolds(cs: seq<Child>)
    ensures Running(cs) <= Slots(cs) + Loose(cs) && Running(cs) <= |cs|
  {
    if cs != [] { RunningHolds(cs[1..]); }
  }

  /** Bounds how often they can still be reaped. */
  ghost function Work(cs: seq<Child>): nat {
    if cs == [] then 0 else cs[0].lines + 1 + Work(cs[1..])
  }

  ghost function FileSet(cs: seq<Child>): set<nat> {
    set c | c in cs :: c.file
  }

  ghost predicate Ready(cs: seq<Child>) {
    forall c :: c in cs ==> c.lines > 0
  }

  ghost predicate AllStarted(cs: seq<Child>) {
    forall c :: c in cs ==> c.started
  }

  /** A child without a process has a command line left to run. */
  ghost predicate Unfinished(cs: seq<Child>) {
    forall c :: c in cs ==> c.started || c.lines > 0
  }

  lemma {:induction false} Concat(a: seq<Child>, b: seq<Child>, f: nat)
    ensures Times(a + b, f) == Times(a, f) + Times(b, f)
    ensures Slots(a + b) == Slots(a) + Slots(b) && Loose(a + b) == Loose(a) + Loose(b)
    ensures Work(a + b) == Work(a) + Work(b)
  {
    if a == [] {
      assert a + b == b;
    } else {
      assert (a + b)[1..] == a[1..] + b;
      Concat(a[1..], b, f);
    }
  }

  lemma OnlyOne(cs: seq<Child>, others: seq<Child>, file: nat)
    requires FileSet(cs) <= {file}
    ensures cs == [] || exists c :: c in cs + others && c.file == file
  {
    if cs != [] {
      assert cs[0].file in FileSet(cs) && cs[0] in cs + others;
    }
  }

  function Without(cs: seq<Child>, k: nat): seq<Child>
    requires k < |cs|
  {
    cs[..k] + cs[k + 1..]
  }

  lemma Removed(cs: seq<Child>, k: nat, f: nat)
    requires k < |cs|
    ensures Times(cs, f) == Times(Without(cs, k), f) + if cs[k].file == f then 1 else 0
    ensures Slots(cs) == Slots(Without(cs, k)) + if cs[k].jobslot then 1 else 0
    ensures Loose(cs) == Loose(Without(cs, k)) + if cs[k].started && !cs[k].jobslot then 1 else 0
    ensures Work(cs) == Work(Without(cs, k)) + cs[k].lines + 1
    ensures FileSet(Without(cs, k)) <= FileSet(cs)
  {
    assert cs == cs[..k] + cs[k..];
    assert cs[k..][1..] == cs[k + 1..];
    Concat(cs[..k], cs[k..], f);
    Concat(cs[..k], cs[k + 1..], f);
  }

  lemma Replaced(cs: seq<Child>, k: nat, c: Child, f: nat)
    requires k < |cs| && c.file == cs[k].file && c.jobslot == cs[k].jobslot
    ensures Times(cs[k := c], f) == Times(cs, f) && Slots(cs[k := c]) == Slots(cs)
    ensures Work(cs[k := c]) == Work(cs) - cs[k].lines + c.lines
    ensures Loose(cs[k := c]) <= Loose(cs) + if !cs[k].started && !cs[k].jobslot then 1 else 0
    ensures FileSet(cs[k := c]) <= FileSet(cs)
  {
    Removed(cs, k, f);
    Removed(cs[k := c], k, f);
    assert Without(cs[k := c], k) == Without(cs, k);
  }

  lemma Pushed(c: Child, cs: seq<Child>, f: nat)
    ensures Times([c] + cs, f) == Times(cs, f) + if c.file == f then 1 else 0
    ensures Slots([c] + cs) == (if c.jobslot then 1 else 0) + Slots(cs)
    ensures Loose([c] + cs) == (if c.started && !c.jobslot then 1 else 0) + Loose(cs)
    ensures Work([c] + cs) == c.lines + 1 + Work(cs)
  {
    assert ([c] + cs)[1..] == cs;
  }

  class Make {
    /** Command line settings: job_slots, jobserver_enabled (), not_parallel, -l, -k. */
    const jobSlots: nat
    const jobserver: bool
    const notParallel: bool
    const loadLimit: bool
    const keepGoing: bool

    var children: seq<Child>
    var waiting: seq<Child>
    var jobSlotsUsed: nat
    var jobserverTokens: nat

    var world: World
    var tick: nat

    /** Tokens taken from the jobserver's pool and not yet given back. */
    ghost var held: nat

    /** How often some file, any file, was handed to new_job, and how often its commands ended. */
    ghost const watched: nat
    ghost var submitted: nat
    ghost var finished: nat

    /** How often the failure to start a command line, of a child without job slot, was ignored. */
    ghost var lapses: nat

    /** How many children that make cares for have gone after a failure. */
    ghost var losses: nat

    predicate Serial() {
      jobSlots == 1 || notParallel
    }

    /** The slot limit is kept when no load limit is set, or jobs are run one by one. */
    predicate Limited() {
      jobSlots > 0 && (!loadLimit || Serial())
    }

    /** What every reachable state satisfies; flight has the file of the child that is on neither list. */
    ghost predicate Inv(flight: Option<nat>)
      reads this
    {
      && Books(flight)
      && held == (if jobserver && jobserverTokens > 0 then jobserverTokens - 1 else 0)
    }

    /** The token for one more child has been taken, unless it is the one make owns. */
    ghost predicate Primed()
      reads this
    {
      Books(None) && held == if jobserver then jobserverTokens else 0
    }

    ghost predicate Books(flight: Option<nat>)
      reads this
    {
      && (jobserver ==> jobSlots == 0)
      && jobserverTokens == |children| + |waiting| + (if flight.Some? then 1 else 0)
      && jobSlotsUsed == Slots(children)
      && Slots(waiting) == 0
      && (Limited() ==> jobSlotsUsed <= jobSlots)
      && (waiting != [] ==> loadLimit)
      && (Serial() ==> jobserverTokens <= 1)
      && Loose(children) <= lapses
      && submitted == Times(children, watched) + Times(waiting, watched) + finished
        + (if flight == Some(watched) then 1 else 0)
    }

    /**
     * The limit on children that run: job slots, and one more for each failure to start a command
     * line that was ignored. With the jobserver it is the tokens held and the one make owns. Run
     * one by one, they are never two.
     */
    lemma RunningLimit(flight: Option<nat>)
      requires Inv(flight)
      ensures jobSlots > 0 && (!loadLimit || jobSlots == 1 || notParallel) ==> Running(children) <= jobSlots + lapses
      ensures jobserver ==> Running(children) <= held + 1
      ensures jobSlots == 1 || notParallel ==> Running(children) <= 1
    {
      RunningHolds(children);
    }

    /** Between two calls of new_job nothing is left over when jobs are run one by one. */
    ghost predicate Settled()
      reads this
    {
      Serial() ==> children == [] && waiting == []
    }

    constructor (jobSlots: nat, jobserver: bool, notParallel: bool, loadLimit: bool, keepGoing: bool, world: World,
          ghost watched: nat)
      requires jobserver ==> jobSlots == 0
      ensures Inv(None) && Settled() && children == [] && waiting == [] && submitted == finished == 0
      ensures lapses == losses == 0
      ensures this.jobSlots == jobSlots && this.notParallel == notParallel && this.loadLimit == loadLimit
      ensures this.jobserver == jobserver && this.keepGoing == keepGoing && this.watched == watched
      ensures this.world == world
    {
      this.jobSlots, this.jobserver, this.notParallel, this.loadLimit, this.keepGoing
        := jobSlots, jobserver, notParallel, loadLimit, keepGoing;
      children, waiting, jobSlotsUsed, jobserverTokens := [], [], 0, 0;
      this.world, tick := world, 0;
      held, submitted, finished, lapses, losses := 0, 0, 0, 0, 0;
      this.watched := watched;
    }

    /** free_child: gives the child's token back, unless it is the one token make owns. */
    method FreeChild(ghost c: Child)
      requires Inv(Some(c.file))
      modifies this`jobserverTokens, this`held, this`finished
      ensures Inv(None) && finished == old(finished) + if c.file == watched then 1 else 0
    {
      if jobserverTokens == 0 { assert false; }
      if jobserver && jobserverTokens > 1 {
        Release();
      }
      jobserverTokens := jobserverTokens - 1;
      finished := finished + if c.file == watched then 1 else 0;
    }

    /** jobserver_release: only a token that is held can be given back. */
    method Release()
      requires held > 0
      modifies this`held
      ensures held == old(held) - 1
    {
      held := held - 1;
    }

    /** load_too_high */
    method LoadTooHigh() returns (high: bool)
      modifies this`tick
      ensures high <==> loadLimit && world.loadHigh(old(tick))
      ensures tick == old(tick) + if loadLimit then 1 else 0
    {
      if !loadLimit { return false; }
      high := world.loadHigh(tick);
      tick := tick + 1;
    }

    /** start_job_command: run the next command line there is something to run for. */
    method StartCommand(c: Child) returns (c': Child, running: bool)
      modifies this`tick
      ensures running <==> Launch(world, old(tick), c).Some?
      ensures running ==> c' == Launch(world, old(tick), c).value
      ensures running ==> exists u: nat :: RunsAt(world, old(tick), c.lines, u)
      ensures forall u: nat :: RunsAt(world, old(tick), c.lines, u) ==>
        running && c' == c.(lines := old(tick) + c.lines - u, started := world.forks(u))
    {
      LaunchIff(world, tick, c);
      c', running := c, false;
      while c'.lines > 0
        invariant Launch(world, tick, c') == Launch(world, old(tick), c) && !running
      {
        c' := c'.(lines := c'.lines - 1);
        tick := tick + 1;
        if !world.skip(tick) {
          if !world.question(tick) {
            c', running := c'.(started := world.forks(tick)), true;
          }
          return;
        }
      }
    }

    /** A job that does not run remotely waits while others run and the load is high. */
    predicate MustWait()
      reads this
    {
      !world.remote(tick) && jobSlotsUsed > 0 && loadLimit && world.loadHigh(tick + 1)
    }

    /** What is started for a job that need not wait. */
    function Launched(c: Child): Option<Child>
      reads this
    {
      Launch(world, tick + 1 + (if !world.remote(tick) && jobSlotsUsed > 0 && loadLimit then 1 else 0), c)
    }

    /**
     * start_waiting_job: start the child, or put it on the waiting list when the load is too
     * high and another child is running.
     */
    method StartWaitingJob(c: Child) returns (started: bool)
      requires Inv(Some(c.file)) && !c.jobslot
      requires Limited() ==> jobSlotsUsed < jobSlots
      modifies this`children, this`waiting, this`jobSlotsUsed, this`tick, this`jobserverTokens, this`held, this`finished
      ensures Inv(None)
      ensures started <==> !old(MustWait())
      ensures !started ==> waiting == [c] + old(waiting) && children == old(children) && finished == old(finished)
      ensures !started ==> jobSlotsUsed == old(jobSlotsUsed)
      ensures started ==> waiting == old(waiting) && children == Chain(old(Launched(c)), old(children))
      ensures started ==> jobSlotsUsed == old(jobSlotsUsed) + SlotFor(old(Launched(c)))
    {
      var remote := world.remote(tick);
      tick := tick + 1;
      if !remote && jobSlotsUsed > 0 {
        var high := LoadTooHigh();
        if high {
          Pushed(c, waiting, watched);
          waiting := [c] + waiting;
          return false;
        }
      }
      StartNow(c);
      started := true;
    }

    /** Start the first command; a child without commands is done at once. */
    method StartNow(c: Child)
      requires Inv(Some(c.file)) && !c.jobslot
      requires Limited() ==> jobSlotsUsed < jobSlots
      modifies this`children, this`jobSlotsUsed, this`tick, this`jobserverTokens, this`held, this`finished
      ensures Inv(None) && children == Chain(Launch(world, old(tick), c), old(children))
      ensures jobSlotsUsed == old(jobSlotsUsed) + SlotFor(Launch(world, old(tick), c))
    {
      var c', running := StartCommand(c);
      if running {
        PutOnChain(c');
      } else {
        FreeChild(c);
      }
    }

    /** The chain with what has been started in front; a child with a process takes a job slot. */
    static function Chain(launched: Option<Child>, before: seq<Child>): seq<Child> {
      match launched
      case None => before
      case Some(c) => [c.(jobslot := c.started)] + before
    }

    static function SlotFor(launched: Option<Child>): nat {
      if launched.Some? && launched.value.started then 1 else 0
    }

    /** Put a running child on the chain; it takes a job slot if it has a process. */
    method PutOnChain(c: Child)
      requires Inv(Some(c.file)) && !c.jobslot
      requires Limited() ==> jobSlotsUsed < jobSlots
      modifies this`children, this`jobSlotsUsed
      ensures Inv(None) && children == [c.(jobslot := c.started)] + old(children)
      ensures jobSlotsUsed == old(jobSlotsUsed) + if c.started then 1 else 0
    {
      var c' := c;
      if c.started {
        jobSlotsUsed := jobSlotsUsed + 1;
        c' := c.(jobslot := true);
      }
      Pushed(c', children, watched);
      children := [c'] + children;
    }

    /** A child that never got a process, if there is one: the first such, else the length of the list. */
    method FirstUnstarted() returns (k: nat)
      ensures k <= |children| && (k < |children| ==> !children[k].started)
      ensures k == |children| <==> AllStarted(children)
    {
      k := 0;
      while k < |children| && children[k].started
        invariant k <= |children| && AllStarted(children[..k])
      {
        k := k + 1;
      }
      assert k == |children| ==> children[..k] == children;
    }

    /** All commands of child k are done: free its slot, take it off the chain and free it. */
    method Bury(k: nat)
      requires Inv(None) && k < |children|
      modifies this`children, this`jobSlotsUsed, this`jobserverTokens, this`held, this`finished
      ensures Inv(None) && children == old(Without(children, k))
      ensures jobSlotsUsed <= old(jobSlotsUsed) && |children| - jobSlotsUsed <= old(|children| - jobSlotsUsed)
      ensures Work(children) < old(Work(children)) && FileSet(children) <= old(FileSet(children))
    {
      Removed(children, k, watched);
      var c := children[k];
      if jobSlotsUsed > 0 {
        jobSlotsUsed := jobSlotsUsed - if c.jobslot then 1 else 0;
      }
      children := Without(children, k);
      FreeChild(c);
    }

    /** Child k goes on with another command line; it keeps its slot, or its lack of one. */
    method GoOn(k: nat, c: Child)
      requires Inv(None) && k < |children|
      requires c.file == children[k].file && c.jobslot == children[k].jobslot && c.lines < children[k].lines
      modifies this`children, this`lapses
      ensures Inv(None) && children == old(children)[k := c]
      ensures |children| == old(|children|)
      ensures Work(children) < old(Work(children)) && FileSet(children) <= old(FileSet(children))
      ensures lapses == old(lapses) + if !old(children[k]).started && !old(children[k]).jobslot then 1 else 0
    {
      Replaced(children, k, c, watched);
      lapses := lapses + if !children[k].started && !children[k].jobslot then 1 else 0;
      children := children[k := c];
    }

    /** Child k has died: start its next command line, or bury it. */
    method Process(k: nat, ok: bool) returns (gone: bool, failed: bool)
      requires Inv(None) && k < |children|
      modifies this`children, this`jobSlotsUsed, this`jobserverTokens, this`held, this`finished, this`tick, this`lapses
      modifies this`losses
      ensures Inv(None) && jobSlotsUsed <= old(jobSlotsUsed) && Work(children) < old(Work(children))
      ensures |children| - jobSlotsUsed <= old(|children| - jobSlotsUsed)
      ensures failed <==> !ok && !world.ignored(old(tick), old(children[k]).started)
      ensures gone <==> failed || Launch(world, old(tick) + 1, old(children[k])).None?
      ensures children == if gone then Without(old(children), k)
        else old(children)[k := Launch(world, old(tick) + 1, old(children[k])).value]
      ensures FileSet(children) <= old(FileSet(children))
      ensures lapses == old(lapses) + if !gone && !old(children[k]).started && !old(children[k]).jobslot then 1 else 0
      ensures losses == old(losses) + if failed && !old(children[k]).dontcare then 1 else 0
    {
      failed := !ok && !world.ignored(tick, children[k].started);
      tick := tick + 1;
      losses := losses + if failed && !children[k].dontcare then 1 else 0;
      var c, running := NextLine(children[k], failed);
      gone := !running;
      if running {
        GoOn(k, c);
      } else {
        Bury(k);
      }
    }

    /** Unless the child has failed, its next command line is started. */
    method NextLine(c: Child, failed: bool) returns (c': Child, running: bool)
      modifies this`tick
      ensures running <==> !failed && Launch(world, old(tick), c).Some?
      ensures running ==> c' == Launch(world, old(tick), c).value
    {
      c', running := c, false;
      if !failed && c.lines > 0 {
        c', running := StartCommand(c);
      }
    }

    /** Find a child to process: one that never started, else one that wait reports as dead. */
    method Deceased(blocking: bool) returns (found: bool, k: nat, ok: bool)
      requires children != []
      modifies this`tick
      ensures found <==> blocking || !AllStarted(children) || !world.nobodyDead(old(tick) + 1)
      ensures found ==> k < |children|
      ensures found && !AllStarted(children) ==> !ok && !children[k].started
      ensures found && AllStarted(children) ==>
        k == world.who(old(tick) + 1) % |children| && ok == world.succeeded(old(tick) + 1)
    {
      k := FirstUnstarted();
      found, ok := true, false;
      if k == |children| {
        tick := tick + 1;
        if !blocking && world.nobodyDead(tick) { return false, 0, false; }
        k := world.who(tick) % |children|;
        ok := world.succeeded(tick);
      }
    }

    /** One round of reap_children. */
    method ReapOne(blocking: bool, err: bool) returns (found: bool, gone: bool, died: bool)
      requires Inv(None) && children != []
      modifies this`children, this`jobSlotsUsed, this`jobserverTokens, this`held, this`finished, this`tick, this`lapses
      modifies this`losses
      ensures Inv(None)
      ensures found <==> blocking || !AllStarted(old(children)) || !world.nobodyDead(old(tick) + 1)
      ensures !found ==> children == old(children) && jobSlotsUsed == old(jobSlotsUsed) && finished == old(finished)
      ensures found ==> Work(children) < old(Work(children)) && FileSet(children) <= old(FileSet(children))
      ensures jobSlotsUsed <= old(jobSlotsUsed) && |children| <= old(|children|)
      ensures |children| - jobSlotsUsed <= old(|children| - jobSlotsUsed)
      ensures died ==> found && gone
      ensures losses >= old(losses) && (died <==> losses > old(losses) && !err && !keepGoing)
      ensures Unforgiving(world) ==> lapses == old(lapses)
      ensures Forgiving(world) && Forks(world, true) && Unfinished(old(children)) && !AllStarted(old(children)) ==>
        !gone && |children| == old(|children|) && jobSlotsUsed == old(jobSlotsUsed) && Unfinished(children)
    {
      gone, died := false, false;
      var k, ok;
      found, k, ok := Deceased(blocking);
      if found {
        LaunchForks(world, children[k], true);
        var dontcare := children[k].dontcare;
        var failed;
        gone, failed := Process(k, ok);
        died := gone && !err && failed && !dontcare && !keepGoing;
      }
    }

    /**
     * reap_children; died says that the last child to go failed and that make gives up, in the
     * state that is left.
     */
    method Reap(block: bool, err: bool) returns (died: bool)
      requires Inv(None)
      modifies this`children, this`jobSlotsUsed, this`jobserverTokens, this`held, this`finished, this`tick, this`lapses
      modifies this`losses
      ensures Inv(None) && jobSlotsUsed <= old(jobSlotsUsed) && |children| <= old(|children|)
      ensures |children| - jobSlotsUsed <= old(|children| - jobSlotsUsed)
      ensures Work(children) <= old(Work(children)) && FileSet(children) <= old(FileSet(children))
      ensures old(children) != [] && (block || !AllStarted(old(children)) || !world.nobodyDead(old(tick) + 1)) ==>
        Work(children) < old(Work(children))
      ensures losses >= old(losses) && (died <==> losses > old(losses) && !err && !keepGoing)
      ensures Unforgiving(world) ==> lapses == old(lapses)
      ensures !block && Quiet(world) && AllStarted(old(children)) ==>
        !died && children == old(children) && jobSlotsUsed == old(jobSlotsUsed) && finished == old(finished)
      ensures !block && Quiet(world) && Forgiving(world) && Forks(world, true) && Unfinished(old(children)) ==>
        !died && AllStarted(children) && |children| == old(|children|) && jobSlotsUsed == old(jobSlotsUsed)
    {
      died := false;
      var blocking, more, gone := block, true, false;
      ghost var first, quiet := true, !block && AllStarted(children) && world.nobodyDead(tick + 1);
      while children != [] && (blocking || more)
        invariant Inv(None) && jobSlotsUsed <= old(jobSlotsUsed) && |children| <= old(|children|)
        invariant |children| - jobSlotsUsed <= old(|children| - jobSlotsUsed)
        invariant Work(children) <= old(Work(children)) && FileSet(children) <= old(FileSet(children))
        invariant first || quiet ==>
          children == old(children) && jobSlotsUsed == old(jobSlotsUsed) && finished == old(finished)
        invariant first ==> tick == old(tick) && blocking == block && more
        invariant !first ==> if quiet then !more else Work(children) < old(Work(children))
        invariant blocking ==> block
        invariant Unforgiving(world) ==> lapses == old(lapses)
        invariant losses >= old(losses) && (!err && !keepGoing ==> losses == old(losses)) && !died
        invariant !more && !block ==> AllStarted(children)
        invariant !block && Quiet(world) && Forgiving(world) && Forks(world, true) && Unfinished(old(children)) ==>
          Unfinished(children) && |children| == old(|children|) && jobSlotsUsed == old(jobSlotsUsed)
        decreases Work(children), more
      {
        more, gone, died := ReapOne(blocking, err);
        if died { return; }
        if gone { blocking := false; }
        first := false;
      }
    }

    /** Take a job off the waiting list. */
    method PopWaiting() returns (job: Child)
      requires Inv(None) && waiting != []
      modifies this`waiting
      ensures Inv(Some(job.file)) && job == old(waiting)[0] && waiting == old(waiting)[1..] && !job.jobslot
    {
      job := waiting[0];
      waiting := waiting[1..];
    }

    /** Take a job off the waiting list and start it, or put it back. */
    method StartFirst() returns (started: bool)
      requires Inv(None) && Settled() && waiting != []
      modifies this`children, this`waiting, this`jobSlotsUsed, this`tick, this`jobserverTokens, this`held, this`finished
      ensures Inv(None)
      ensures started ==> waiting == old(waiting)[1..]
      ensures !started ==> waiting == old(waiting) && children == old(children) && jobSlotsUsed == old(jobSlotsUsed) > 0
      ensures Calm(world) && Load(world, true) && old(jobSlotsUsed) > 0 ==> !started
      ensures Calm(world) && Load(world, false) && AllStarted(old(children)) && Ready(old(waiting)) ==>
        started && AllStarted(children) && jobSlotsUsed == old(jobSlotsUsed) + 1
    {
      var job := PopWaiting();
      LaunchForks(world, job, true);
      started := StartWaitingJob(job);
    }

    /** start_waiting_jobs: jobs are left waiting only when some child holds a job slot. */
    method StartWaitingJobs() returns (died: bool)
      requires Inv(None) && Settled()
      modifies this`children, this`waiting, this`jobSlotsUsed, this`jobserverTokens, this`held, this`finished
      modifies this`tick, this`lapses, this`losses
      ensures Inv(None) && Settled()
      ensures !died && waiting != [] ==> jobSlotsUsed > 0
      ensures losses >= old(losses) && (died <==> losses > old(losses) && !keepGoing)
      ensures Unforgiving(world) ==> lapses == old(lapses)
      ensures old(waiting) == [] ==> !died && children == old(children) && waiting == []
      ensures Calm(world) && AllStarted(old(children)) && Load(world, true) && old(jobSlotsUsed) > 0 ==>
        !died && children == old(children) && waiting == old(waiting) && jobSlotsUsed == old(jobSlotsUsed)
      ensures Calm(world) && AllStarted(old(children)) && Load(world, false) && Ready(old(waiting)) ==>
        !died && AllStarted(children) && waiting == [] && jobSlotsUsed == old(jobSlotsUsed) + |old(waiting)|
    {
      died := false;
      var more := waiting != [];
      while more
        invariant Inv(None) && Settled()
        invariant more ==> waiting != []
        invariant losses >= old(losses) && (!keepGoing ==> losses == old(losses)) && !died
        invariant Unforgiving(world) ==> lapses == old(lapses)
        invariant old(waiting) == [] ==> !more && children == old(children)
        invariant !more && waiting != [] ==> jobSlotsUsed > 0
        invariant Calm(world) && AllStarted(old(children)) && Load(world, true) && old(jobSlotsUsed) > 0 ==>
          children == old(children) && waiting == old(waiting) && jobSlotsUsed == old(jobSlotsUsed)
        invariant Calm(world) && AllStarted(old(children)) && Load(world, false) && Ready(old(waiting)) ==>
          && AllStarted(children) && Ready(waiting) && jobSlotsUsed + |waiting| == old(jobSlotsUsed) + |old(waiting)|
          && (more <==> waiting != [])
        decreases more, |waiting|
      {
        died := Reap(false, false);
        if died { return; }
        var started := StartFirst();
        more := started && waiting != [];
      }
    }

    /** Wait for a job slot to be freed up. */
    method WaitForSlot() returns (died: bool)
      requires Inv(None) && Settled()
      modifies this`children, this`jobSlotsUsed, this`jobserverTokens, this`held, this`finished, this`tick, this`lapses
      modifies this`losses
      ensures Inv(None) && Settled()
      ensures !died && jobSlots > 0 ==> jobSlotsUsed != jobSlots
      ensures losses >= old(losses) && (died <==> losses > old(losses) && !keepGoing)
      ensures Unforgiving(world) ==> lapses == old(lapses)
      ensures jobSlots == 0 || old(jobSlotsUsed) != jobSlots ==>
        !died && children == old(children) && jobSlotsUsed == old(jobSlotsUsed)
    {
      died := false;
      if jobSlots != 0 {
        while jobSlotsUsed == jobSlots
          invariant Inv(None) && Settled()
          invariant old(jobSlotsUsed) != jobSlots ==> children == old(children) && jobSlotsUsed == old(jobSlotsUsed)
          invariant Unforgiving(world) ==> lapses == old(lapses)
          invariant losses >= old(losses) && (!keepGoing ==> losses == old(losses)) && !died
          decreases Work(children)
        {
          died := Reap(true, false);
          if died { return; }
        }
      }
    }

    /** Make sure of a jobserver token, sleeping with children running until one can be read. */
    method AcquireToken() returns (died: bool)
      requires Inv(None) && Settled() && jobserver
      modifies this`children, this`waiting, this`jobSlotsUsed, this`jobserverTokens, this`held, this`finished
      modifies this`tick, this`lapses, this`losses
      ensures Settled()
      ensures if died then Inv(None) else Primed()
      ensures losses >= old(losses) && (died <==> losses > old(losses) && !keepGoing)
      ensures Unforgiving(world) ==> lapses == old(lapses)
    {
      var wakeups := world.wakeups;
      while jobserverTokens > 0
        invariant Inv(None) && Settled() && (Unforgiving(world) ==> lapses == old(lapses))
        invariant losses >= old(losses) && (!keepGoing ==> losses == old(losses))
        decreases wakeups
      {
        died := Reap(false, false);
        if died { return; }
        died := StartWaitingJobs();
        if died { return; }
        if jobserverTokens == 0 { break; }
        if children == [] { assert false; }
        if wakeups == 0 {
          held := held + 1;
          return false;
        }
        wakeups := wakeups - 1;
      }
      died := false;
    }

    predicate Pending(file: nat)
      reads this
    {
      exists c :: c in children + waiting && c.file == file
    }

    /** Wait for the one child there is to die. */
    method WaitFor(file: nat) returns (died: bool)
      requires Inv(None) && waiting == [] && FileSet(children) <= {file}
      modifies this`children, this`jobSlotsUsed, this`jobserverTokens, this`held, this`finished, this`tick, this`lapses
      modifies this`losses
      ensures Inv(None) && (!died ==> children == [])
      ensures losses >= old(losses) && (died <==> losses > old(losses) && !keepGoing)
      ensures Unforgiving(world) ==> lapses == old(lapses)
    {
      died := false;
      while Pending(file)
        invariant Inv(None) && FileSet(children) <= {file} && (Unforgiving(world) ==> lapses == old(lapses))
        invariant losses >= old(losses) && (!keepGoing ==> losses == old(losses)) && !died
        decreases Work(children)
      {
        died := Reap(true, false);
        if died { return; }
      }
      OnlyOne(children, waiting, file);
    }

    /** Everything new_job does before it starts the child: room has been made, and a token is at hand. */
    method Prepare() returns (died: bool)
      requires Inv(None) && Settled()
      modifies this`children, this`waiting, this`jobSlotsUsed, this`jobserverTokens, this`held, this`finished
      modifies this`tick, this`lapses, this`losses
      ensures if died then Inv(None) else Primed() && Settled()
      ensures losses >= old(losses) && (died <==> losses > old(losses) && !keepGoing)
      ensures !died && jobSlots > 0 ==> jobSlotsUsed != jobSlots
      ensures Calm(world) && AllStarted(old(children)) && Load(world, true) && 0 < old(jobSlotsUsed) < jobSlots ==>
        !died && children == old(children) && waiting == old(waiting) && jobSlotsUsed == old(jobSlotsUsed)
      ensures Quiet(world) && AllStarted(old(children)) && old(waiting) == [] && old(jobSlotsUsed) < jobSlots ==>
        !died && children == old(children) && waiting == [] && jobSlotsUsed == old(jobSlotsUsed)
      ensures Unforgiving(world) ==> lapses == old(lapses)
    {
      died := StartWaitingJobs();
      if died { return; }
      died := Reap(false, false);
      if died { return; }
      died := WaitForSlot();
      if died { return; }
      if jobSlots == 0 && jobserver {
        died := AcquireToken();
      }
    }

    /** new_job */
    method NewJob(file: nat, lines: nat, dontcare: bool) returns (died: bool)
      requires Inv(None) && Settled()
      modifies this`children, this`waiting, this`jobSlotsUsed, this`jobserverTokens, this`held, this`finished
      modifies this`tick, this`lapses, this`losses, this`submitted
      ensures Inv(None) && losses >= old(losses) && (died <==> losses > old(losses) && !keepGoing)
      ensures !died ==> Settled() && submitted == old(submitted) + if file == watched then 1 else 0
      ensures Unforgiving(world) ==> lapses == old(lapses)
      ensures
        && Calm(world) && AllStarted(old(children)) && Load(world, true)
        && loadLimit && 0 < old(jobSlotsUsed) < jobSlots && !Serial() ==>
        && !died && children == old(children) && jobSlotsUsed == old(jobSlotsUsed)
        && waiting == [Child(file, lines, false, false, dontcare)] + old(waiting)
      ensures Calm(world) && old(children) == old(waiting) == [] && lines > 0 && jobSlots > 0 && !Serial() ==>
        !died && AllStarted(children) && waiting == [] && jobSlotsUsed == 1
      ensures
        && Quiet(world) && Forks(world, false) && AllStarted(old(children)) && old(waiting) == []
        && old(jobSlotsUsed) < jobSlots && !loadLimit && lines > 0 && !Serial() ==>
        && !died && waiting == [] && jobSlotsUsed == old(jobSlotsUsed)
        && children == [Child(file, lines - 1, false, false, dontcare)] + old(children)
    {
      died := Prepare();
      if died { return; }
      Submit(Child(file, lines, false, false, dontcare));
      if Serial() {
        died := WaitFor(file);
      }
    }

    /** The last part of new_job: the child has its token, and is started or put on the waiting list. */
    method Submit(c: Child)
      requires Primed() && Settled() && !c.jobslot && (jobSlots > 0 ==> jobSlotsUsed != jobSlots)
      modifies this`children, this`waiting, this`jobSlotsUsed, this`jobserverTokens, this`held, this`finished
      modifies this`tick, this`submitted
      ensures Inv(None) && submitted == old(submitted) + if c.file == watched then 1 else 0
      ensures Serial() ==> waiting == [] && FileSet(children) <= {c.file}
      ensures Quiet(world) && Load(world, true) && loadLimit && old(jobSlotsUsed) > 0 ==>
        children == old(children) && waiting == [c] + old(waiting) && jobSlotsUsed == old(jobSlotsUsed)
      ensures Quiet(world) && Forks(world, true) && old(jobSlotsUsed) == 0 && c.lines > 0 ==>
        && waiting == old(waiting) && jobSlotsUsed == 1
        && children == [c.(lines := c.lines - 1, started := true, jobslot := true)] + old(children)
      ensures Quiet(world) && Forks(world, false) && !loadLimit && c.lines > 0 ==>
        && waiting == old(waiting) && jobSlotsUsed == old(jobSlotsUsed)
        && children == [c.(lines := c.lines - 1, started := false)] + old(children)
    {
      jobserverTokens := jobserverTokens + 1;
      submitted := submitted + if c.file == watched then 1 else 0;
      LaunchForks(world, c, true);
      LaunchForks(world, c, false);
      var started := StartWaitingJob(c);
    }

    /** The tokens taken from the pool for the children there are, all but the one make owns. */
    function Owed(): nat
      reads this
    {
      if jobserver && |children| + |waiting| > 0 then |children| + |waiting| - 1 else 0
    }

    /**
     * clean_jobserver. With exit status 2 the tokens are given back; with another status make
     * complains when it has any. The make that has set up the pool, with masterSlots - 1 tokens,
     * empties it and complains of the pool exactly when a token is missing: one that this make
     * has kept, or one of the others that somebody else has taken.
     */
    method CleanJobserver(status: nat, masterSlots: nat, pool: nat, ghost others: nat)
      returns (complaint: bool, poolComplaint: bool)
      requires Inv(None)
      modifies this`jobserverTokens, this`held
      ensures complaint <==> status != 2 && jobserver && |children| + |waiting| > 0
      ensures held == if complaint then Owed() else 0
      ensures masterSlots > 0 && pool + Owed() + others == masterSlots - 1 ==> (poolComplaint <==> held + others > 0)
    {
      complaint, poolComplaint := false, false;
      var available := pool;
      if jobserver && jobserverTokens > 0 {
        if status != 2 {
          complaint := true;
        } else {
          jobserverTokens := jobserverTokens - 1;
          while jobserverTokens > 0
            invariant held == jobserverTokens && available + held == pool + Owed()
            modifies this`jobserverTokens, this`held
          {
            Release();
            available := available + 1;
            jobserverTokens := jobserverTokens - 1;
          }
        }
      }
      if masterSlots > 0 {
        poolComplaint := 1 + available != masterSlots;
      }
    }

    /**
     * die: wait until no child holds a job slot, then clean up. Where no child runs remotely,
     * make complains exactly when it is called, with another status than 2, while jobs wait.
     * With status 0 a child that fails meanwhile makes it exit abruptly, without cleaning up.
     */
    method Die(status: nat, masterSlots: nat, pool: nat, ghost others: nat)
      returns (abrupt: bool, complaint: bool, poolComplaint: bool)
      requires Inv(None)
      modifies this`children, this`jobSlotsUsed, this`jobserverTokens, this`held, this`finished, this`tick, this`lapses
      modifies this`losses
      ensures abrupt ==> old(jobSlotsUsed) > 0
      ensures losses >= old(losses) && (abrupt <==> losses > old(losses) && status == 0 && !keepGoing)
      ensures !abrupt ==> jobSlotsUsed == 0 && Slots(children) == 0
      ensures !abrupt ==> (complaint <==> status != 2 && jobserver && |children| + |waiting| > 0)
      ensures !abrupt && old(jobSlotsUsed == |children|) ==>
        children == [] && (complaint <==> status != 2 && jobserver && waiting != [])
      ensures !abrupt ==> held == if complaint then Owed() else 0
      ensures !abrupt && masterSlots > 0 && pool + Owed() + others == masterSlots - 1 ==>
        (poolComplaint <==> held + others > 0)
    {
      while jobSlotsUsed > 0
        invariant Inv(None) && |children| - jobSlotsUsed <= old(|children| - jobSlotsUsed)
        invariant old(jobSlotsUsed) == 0 ==> jobSlotsUsed == 0
        invariant losses >= old(losses) && (status == 0 && !keepGoing ==> losses == old(losses))
        decreases Work(children)
      {
        var died := Reap(true, status != 0);
        if died { return true, false, false; }
      }
      abrupt := false;
      complaint, poolComplaint := CleanJobserver(status, masterSlots, pool, others);
    }
  }

  /** What the rest of make does with the scheduler, and how the world is at that time. */
  datatype Op = NewJob(world: World, file: nat, lines: nat, dontcare: bool) | Poll(world: World, block: bool)

  ghost function Submissions(ops: seq<Op>, f: nat): nat {
    if ops == [] then 0
    else Submissions(ops[..|ops| - 1], f) + if ops[|ops| - 1].NewJob? && ops[|ops| - 1].file == f then 1 else 0
  }

  /** In none of the worlds is a failure to start a command line ignored. */
  ghost predicate Strict(ops: seq<Op>) {
    forall n :: 0 <= n < |ops| ==> Unforgiving(ops[n].world)
  }

  method Perform(make: Make, op: Op) returns (died: bool)
    requires make.Inv(None) && make.Settled()
    modifies make
    ensures make.Inv(None) && make.losses >= old(make.losses)
    ensures died <==> make.losses > old(make.losses) && !make.keepGoing
    ensures !died ==> make.Settled()
    ensures !died ==> make.submitted == old(make.submitted) + if op.NewJob? && op.file == make.watched then 1 else 0
    ensures Unforgiving(op.world) ==> make.lapses == old(make.lapses)
  {
    make.world := op.world;
    match op
    case NewJob(_, file, lines, dontcare) =>
      died := make.NewJob(file, lines, dontcare);
    case Poll(_, block) =>
      died := make.StartWaitingJobs();
      if died { return; }
      died := make.Reap(block, false);
  }

  /** Any run: new jobs and passes over the goals, in any world, until a failure ends it. */
  method Run(make: Make, ops: seq<Op>) returns (died: bool)
    requires make.Inv(None) && make.Settled() && make.submitted == 0
    modifies make
    ensures make.Inv(None) && make.losses >= old(make.losses)
    ensures died <==> make.losses > old(make.losses) && !make.keepGoing
    ensures !died ==> make.submitted == Submissions(ops, make.watched)
    ensures Strict(ops) ==> make.lapses == old(make.lapses)
  {
    died := false;
    for n := 0 to |ops|
      invariant make.Inv(None) && make.Settled() && make.submitted == Submissions(ops[..n], make.watched)
      invariant Strict(ops) ==> make.lapses == old(make.lapses)
      invariant make.losses >= old(make.losses) && (!make.keepGoing ==> make.losses == old(make.losses)) && !died
    {
      assert ops[..n + 1][..n] == ops[..n];
      died := Perform(make, ops[n]);
      if died { return; }
    }
    assert ops[..|ops|] == ops;
  }

  /** Nobody dies and nothing runs remotely; failures to start a line are ignored. */
  function Idle(high: bool, forks: bool): World {
    World(t => false, t => high, t => false, t => false, t => forks, t => true, t => 0, t => true,
          (t, started) => true, 0)
  }

  /**
   * With a load limit and n >= 2 job slots the limit on slots is not kept: any number of jobs
   * queue up behind the first one while the load is high, and start together when it falls.
   */
  method Exceeds(n: nat, m: nat) returns (make: Make)
    requires n >= 2 && m >= 1
    ensures make.Inv(None) && make.jobSlots == n && make.jobSlotsUsed == n + m
  {
    make := new Make(n, false, false, true, false, Idle(true, true), 0);
    var died := make.NewJob(0, 1, false);
    for k := 0 to n + m - 1
      invariant make.Inv(None) && make.Settled() && make.jobSlots == n && make.loadLimit && !make.Serial()
      invariant make.world == Idle(true, true) && make.jobSlotsUsed == 1 && AllStarted(make.children)
      invariant |make.waiting| == k && Ready(make.waiting)
    {
      died := make.NewJob(k + 1, 1, false);
    }
    make.world := Idle(false, true);
    died := make.StartWaitingJobs();
  }

  /**
   * Without a load limit the limit on slots is kept, but not for jobs: any number can run and
   * none be counted. The first command line of each cannot be started, which is ignored, and its
   * second one is started from reap_children, where no slot is taken.
   */
  method Uncounted(n: nat, m: nat) returns (make: Make)
    requires n >= 2
    ensures make.Inv(None) && make.Limited() && make.jobSlots == n && !make.loadLimit
    ensures |make.children| == m && AllStarted(make.children) && make.jobSlotsUsed == 0
  {
    make := new Make(n, false, false, false, false, Idle(false, false), 0);
    for k := 0 to m
      invariant make.Inv(None) && make.Settled() && make.jobSlots == n && !make.loadLimit && !make.Serial()
      invariant |make.children| == k && AllStarted(make.children) && make.waiting == [] && make.jobSlotsUsed == 0
    {
      make.world := Idle(false, false);
      var died := make.NewJob(k, 2, false);
      make.world := Idle(false, true);
      died := make.Reap(false, false);
    }
  }
}
