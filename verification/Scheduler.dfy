// The container of src/yc-child.c, the driver of src/yapara-main.c and the job
// tables of the interface, as one system.
module Scheduler {
  import opened Basics
  import opened LineDelivery
  import opened ChildProcess
  import JobTable
  import ShellSyntax
  import ShellLine
  import ShellRedirections

  // ---- the input ----

  // The lines of a file; a last one need not be ended.
  ghost function FileLines(text: string): seq<string>
    decreases |text|
  {
    if text == "" then []
    else
      var k := LineEnd(text);
      [text[..k]] + FileLines(AfterLine(text, k))
  }

  function AfterLine(text: string, k: nat): (rest: string)
    ensures text != "" ==> |rest| < |text|
  {
    if k < |text| then text[k + 1..] else ""
  }

  function LineEnd(text: string): (k: nat)
    ensures k <= |text| && '\n' !in text[..k] && (k < |text| ==> text[k] == '\n')
  {
    if text == "" || text[0] == '\n' then 0
    else
      var k := LineEnd(text[1..]);
      assert text[..k + 1] == [text[0]] + text[1..][..k];
      k + 1
  }

  // A C string ends at its first NUL.
  function CText(line: string): (text: string)
    ensures '\0' !in text && text <= line && (text == line || line[|text|] == '\0')
  {
    if line == "" || line[0] == ShellSyntax.NUL then ""
    else [line[0]] + CText(line[1..])
  }

  type Env = ShellSyntax.Env

  ghost function Reading(line: string, env: Env): ShellLine.Outcome {
    ShellLine.Parse(CText(line), env, true)
  }

  // Nothing to run, something to run, or a line that ends the program.
  ghost predicate IsBlank(line: string, env: Env) {
    Reading(line, env).Failed? && Reading(line, env).error.code.Empty?
  }

  ghost predicate IsCommand(line: string, env: Env) {
    !Reading(line, env).Failed?
  }

  ghost predicate IsFatal(line: string, env: Env) {
    Reading(line, env).Failed? && !Reading(line, env).error.code.Empty?
  }

  // The commands among the lines, in order.
  ghost function Commands(lines: seq<string>, env: Env): seq<string> {
    if lines == [] then []
    else
      var k := |lines| - 1;
      Commands(lines[..k], env) + if IsCommand(lines[k], env) then [lines[k]] else []
  }

  ghost predicate NoneFatal(lines: seq<string>, env: Env) {
    forall i | 0 <= i < |lines| :: !IsFatal(lines[i], env)
  }

  lemma NoneFatalIs(lines: seq<string>, env: Env)
    requires NoneFatal(lines, env)
    ensures forall i | 0 <= i < |lines| ::
      var outcome := ShellLine.Parse(CText(lines[i]), env, true); outcome.Failed? ==> outcome.error.code.Empty?
  {
    hide ShellLine.Parse, CText;
    forall i | 0 <= i < |lines|
      ensures var outcome := ShellLine.Parse(CText(lines[i]), env, true); outcome.Failed? ==> outcome.error.code.Empty?
    {
      assert !IsFatal(lines[i], env);
    }
  }

  lemma NoneFatalMore(lines: seq<string>, line: string, env: Env)
    requires NoneFatal(lines, env) && !IsFatal(line, env)
    ensures NoneFatal(lines + [line], env)
  {
    hide IsFatal;
  }

  // The lines of a file are those that were written.
  ghost function Spell(lines: seq<string>, ended: bool): string {
    if lines == [] then ""
    else lines[0] + (if |lines| > 1 || ended then "\n" else "") + Spell(lines[1..], ended)
  }

  lemma {:induction false} FileOfLines(lines: seq<string>, ended: bool)
    requires forall i | 0 <= i < |lines| :: '\n' !in lines[i]
    requires lines != [] && !ended ==> lines[|lines| - 1] != ""
    ensures FileLines(Spell(lines, ended)) == lines
    decreases |lines|
  {
    hide FileLines, Spell;
    SpellFirst(lines, ended);
    if lines == [] {
      NoLines();
    } else {
      FileOfLines(lines[1..], ended);
      SpellFirst(lines[1..], ended);
      FirstOfFile(lines[0], Spell(lines[1..], ended), |lines| > 1 || ended);
      assert [lines[0]] + lines[1..] == lines;
    }
  }

  lemma SpellFirst(lines: seq<string>, ended: bool)
    ensures Spell(lines, ended)
         == if lines == [] then "" else lines[0] + (if |lines| > 1 || ended then "\n" else "") + Spell(lines[1..], ended)
  {
  }

  lemma NoLines()
    ensures FileLines("") == []
  {
  }

  lemma FirstOfFile(line: string, rest: string, more: bool)
    requires '\n' !in line && (more || (rest == "" && line != ""))
    ensures FileLines(line + (if more then "\n" else "") + rest) == [line] + FileLines(rest)
  {
    hide FileLines;
    var text := line + (if more then "\n" else "") + rest;
    var k := |line|;
    assert forall j | 0 <= j < k :: text[j] == line[j];
    EndIs(text, k);
    assert text[..k] == line && AfterLine(text, k) == rest;
    Container.FirstLine(text);
  }

  lemma {:induction false} EndIs(text: string, n: nat)
    requires n <= |text| && (n < |text| ==> text[n] == '\n') && forall j | 0 <= j < n :: text[j] != '\n'
    ensures LineEnd(text) == n
  {
    if n > 0 {
      EndIs(text[1..], n - 1);
    }
  }

  // The commands are the lines that can be read and are not blank, in order.
  lemma {:induction false} CommandsJoin(a: seq<string>, b: seq<string>, env: Env)
    ensures Commands(a + b, env) == Commands(a, env) + Commands(b, env)
    decreases |b|
  {
    hide IsCommand;
    if b == [] {
      assert a + b == a && Commands(a, env) + [] == Commands(a, env);
    } else {
      var k := |b| - 1;
      assert a + b == (a + b[..k]) + [b[k]] && b == b[..k] + [b[k]];
      CommandsJoin(a, b[..k], env);
      CommandsMore(a + b[..k], b[k], env);
      CommandsMore(b[..k], b[k], env);
    }
  }

  lemma CommandsOne(line: string, env: Env)
    ensures Commands([line], env) == if ShellLine.Parse(CText(line), env, true).Failed? then [] else [line]
  {
    assert [line][..0] == [];
  }

  lemma CommandsMore(lines: seq<string>, line: string, env: Env)
    ensures Commands(lines + [line], env) == Commands(lines, env) + if IsCommand(line, env) then [line] else []
  {
    assert (lines + [line])[..|lines|] == lines;
  }

  // yc_ui_spawn: standard output and error are captured unless the line
  // redirects them.
  function Kinds(outcome: ShellLine.Outcome, captures: bool): (kinds: seq<Kind>)
    ensures |kinds| == FIRST_CAPTURED + N_CAPTURED
    ensures forall fd | 0 <= fd < |kinds| ::
      kinds[fd] == if captures && fd >= FIRST_CAPTURED && !Redirects(outcome, fd) then Pipe(false, true) else Plain
  {
    seq(FIRST_CAPTURED + N_CAPTURED, fd =>
      if captures && fd >= FIRST_CAPTURED && !Redirects(outcome, fd) then Pipe(false, true) else Plain)
  }

  predicate Redirects(outcome: ShellLine.Outcome, fd: int) {
    outcome.Direct? && exists i :: 0 <= i < |outcome.slots| && outcome.slots[i].what.fd == fd
  }

  lemma KindsRight(text: string, env: Env, captures: bool)
    requires !ShellLine.Parse(text, env, true).Failed?
    ensures Dressed(AsPorts(Kinds(ShellLine.Parse(text, env, true), captures)), text, env, captures)
  {
    hide ShellLine.LineFrom, ShellRedirections.SlotsOf;
    if ShellLine.Parse(text, env, true).Direct? {
      var rs := ShellLine.LineFrom(text, 0, ShellLine.NOTHING, env).value.what.redirects;
      ShellRedirections.LastWins(rs, 1);
      ShellRedirections.LastWins(rs, 2);
    }
  }

  // What a command's descriptors 0 to 2 are to us: standard output and error are
  // captured, if output is shown, exactly if no redirection of the line is of
  // that descriptor; and both for a line that a shell runs.
  ghost predicate Dressed(ports: seq<Port>, text: string, env: Env, captures: bool) {
    && |ports| == 3 && ports[0] == Port(0, Plain)
    && match ShellLine.Parse(text, env, true)
       case Direct(_, _, slots) =>
         var read := ShellLine.LineFrom(text, 0, ShellLine.NOTHING, env);
         && read.Ok? && slots == ShellRedirections.SlotsOf(read.value.what.redirects)
         && (forall fd | 1 <= fd <= 2 ::
               ports[fd] == Port(fd,
                 if captures && ShellRedirections.LastOn(read.value.what.redirects, fd).None? then Pipe(false, true) else Plain))
       case ShellC(_) => forall fd | 1 <= fd <= 2 :: ports[fd] == Port(fd, if captures then Pipe(false, true) else Plain)
       case Failed(_) => false
  }

  ghost function AsPorts(kinds: seq<Kind>): (ports: seq<Port>)
    ensures |ports| == |kinds|
  {
    seq(|kinds|, k requires 0 <= k < |kinds| => Port(k, kinds[k]))
  }

  // What libuv may call, and what the children may do.
  datatype Event =
    | Idle
    | Exit(child: nat, status: int, signal: int)
    | ProcessClosed(child: nat)
    | Poll(child: nat, fd: nat, readable: bool, writable: bool, hangup: bool, n: nat, readFails: bool)
    | PollFails(child: nat, fd: nat)
    | PollClosed(child: nat, fd: nat)
    | Write(child: nat, fd: nat, data: seq<byte>)
    | CloseWriters(child: nat, fd: nat)
  {
    // An error of a poll or of a read.
    predicate Fails() {
      PollFails? || (Poll? && readable && readFails)
    }

    // How a process is recorded to have ended, after this event.
    predicate Ends(was: Status, status: Status) {
      if !Exit? then status == was
      else if signal != 0 then status == Killed(signal)
      else status.Exited? && -0x8000_0000 <= status.value < 0x8000_0000 && (status.value - this.status) % 0x1_0000_0000 == 0
    }

    // What has been written to a pipe, after this event.
    function Added(k: nat): seq<byte> {
      if Write? && fd == k then data else []
    }
  }

  // No output has been given up.
  ghost predicate Clean(cs: seq<Child>)
    reads cs`clean
  {
    forall i | 0 <= i < |cs| :: cs[i].clean
  }

  lemma CleanMoves(cs: seq<Child>, gone: seq<Child>, p: nat)
    requires p < |cs|
    ensures Clean(cs) && Clean(gone) ==> Clean(cs[p := cs[|cs| - 1]][..|cs| - 1]) && Clean(gone + [cs[p]])
  {
  }

  lemma CleanMore(cs: seq<Child>, c: Child)
    requires c.clean
    ensures Clean(cs) ==> Clean(cs + [c])
  {
  }

  ghost function JobsOf(children: seq<Child>): seq<nat> {
    seq(|children|, i requires 0 <= i < |children| => children[i].job)
  }

  class Container {
    const max: nat
    const maxDone: nat
    const ui: JobTable.Ui
    const env: Env
    const captures: bool             // does the interface show output?
    const unspawnable: set<nat>      // the jobs whose processes cannot be made
    var children: seq<Child>
    var doneChildren: seq<Child>     // finished ones, oldest first, kept for inspection
    var idle: bool
    var driverDone: bool
    var died: bool                   // yc_die was called
    var input: string
    ghost var consumed: seq<string>
    ghost var fatal: seq<string>     // the line that ended the program
    ghost var commands: seq<string>
    ghost var retired: seq<Child>
    ghost var freed: seq<Child>

    // A child in its slot ...
    ghost predicate Placed(i: nat)
      requires i < |children|
      reads this`children, children[i]
    {
      var c := children[i];
      c.index == i && c.Valid() && !c.done && OutputOnly(c)
    }

    ghost predicate OutputOnly(c: Child)
      reads c`fds
    {
      forall k | 0 <= k < |c.fds| :: c.fds[k].kind.Pipe? ==> Captured(c.fds[k].kind)
    }

    // ... that is not due to be told that it is done.
    ghost predicate Seated(i: nat)
      requires i < |children|
      reads this`children, children[i]
    {
      Placed(i) && !children[i].Due()
    }

    // In the middle of a callback for child p, which may have become due.
    ghost predicate Midway(p: nat)
      reads this, ui, children, retired
    {
      && max > 0 && p < |children| <= max && ui.Valid() && Rest() && Linked() && Accounted() && Kept() && Outfitted()
      && (forall i | 0 <= i < |children| :: Placed(i) && (i != p ==> !children[i].Due()))
    }

    ghost predicate Valid()
      reads this, ui, children, retired
    {
      && max > 0 && |children| <= max && ui.Valid() && Seats() && Rest() && Linked() && Accounted() && Kept()
      && Outfitted()
    }

    // Each child has the descriptors that its command should have.
    ghost predicate Outfitted()
      reads this`children, this`retired, this`commands, children`fds, retired`fds
    {
      AllOutfit(children, commands) && AllOutfit(retired, commands)
    }

    ghost predicate AllOutfit(cs: seq<Child>, cmds: seq<string>)
      reads cs`fds
    {
      forall i | 0 <= i < |cs| :: OutfitOf(cs[i].job, Ports(cs[i].fds), cmds)
    }

    ghost predicate OutfitOf(job: nat, ports: seq<Port>, cmds: seq<string>) {
      job < |cmds| && Dressed(ports, CText(cmds[job]), env, captures)
    }

    lemma MoreCommands(cs: seq<Child>, cmds: seq<string>, line: string)
      requires AllOutfit(cs, cmds)
      ensures AllOutfit(cs, cmds + [line])
    {
      hide Dressed;
    }

    lemma OneMoreChild(cs: seq<Child>, c: Child, cmds: seq<string>)
      requires AllOutfit(cs, cmds) && OutfitOf(c.job, Ports(c.fds), cmds)
      ensures AllOutfit(cs + [c], cmds)
    {
      hide OutfitOf;
    }

    ghost predicate Seats()
      reads this`children, children
    {
      forall i | 0 <= i < |children| :: Seated(i)
    }

    ghost predicate Rest()
      reads this`retired, retired
    {
      AtRest(retired)
    }

    static ghost predicate AtRest(cs: seq<Child>)
      reads cs
    {
      forall i | 0 <= i < |cs| :: cs[i].Valid() && cs[i].done
    }

    static lemma MoreAtRest(cs: seq<Child>, c: Child)
      requires AtRest(cs) && c.Valid() && c.done
      ensures AtRest(cs + [c])
    {
      hide Child.Valid;
    }

    // The children of the container are the running jobs, and those that are
    // done are the finished ones, with failures as their statuses say.
    ghost predicate Linked()
      reads this`children, this`retired, ui`jobs, ui`finished, ui`failures, retired`status
    {
      LinkedTo(ui.jobs, ui.finished, ui.failures)
    }

    ghost predicate LinkedTo(jobs: seq<nat>, finished: seq<nat>, failures: seq<bool>)
      reads this`children, this`retired, retired`status
    {
      && |jobs| == |children| && (forall i | 0 <= i < |children| :: children[i].job in jobs)
      && (forall i, j | 0 <= i < j < |children| :: children[i].job != children[j].job)
      && finished == JobsOf(retired)
      && |failures| == |retired| && forall i | 0 <= i < |retired| :: failures[i] <==> retired[i].status != Exited(0)
    }

    // Every line read so far is accounted for: each was blank, or a command that
    // runs or has run; and the program ends only at a line that cannot.
    ghost predicate Accounted()
      reads this`input, this`consumed, this`commands, this`driverDone, this`died, this`fatal, ui`nStarted
    {
      AccountedFor(ui.nStarted)
    }

    ghost predicate AccountedFor(started: nat)
      reads this`input, this`consumed, this`commands, this`driverDone, this`died, this`fatal
    {
      && commands == Commands(consumed, env) && |commands| == started
      && NoneFatal(consumed, env)
      && (driverDone ==> input == "") && (died <==> fatal != []) && |fatal| <= 1
      && (died ==> IsFatal(fatal[0], env) || (IsCommand(fatal[0], env) && |commands| in unspawnable))
      && Spawnable(|commands|)
    }

    ghost predicate Spawnable(n: nat) {
      forall k: nat | k < n :: k !in unspawnable
    }

    // The lines read and those still to come.
    ghost function AllLines(): seq<string>
      reads this`consumed, this`fatal, this`input
    {
      consumed + fatal + FileLines(input)
    }

    // The last few children that were done are kept, and all others freed, once
    // each and in their order.
    ghost predicate Kept()
      reads this`retired, this`doneChildren, this`freed
    {
      && retired == freed + doneChildren
      && |doneChildren| == if |retired| < maxDone then |retired| else maxDone
    }

    // No wake-up is lost: an offer is pending, or there is no room, or the
    // driver has nothing left.
    ghost predicate Awake()
      reads this
    {
      idle || |children| == max || driverDone || died
    }

    // Has libuv anything left to wait for?
    ghost predicate Active()
      reads this, children
    {
      idle || exists i :: 0 <= i < |children| && children[i].Active()
    }

    // yc_child_container_new, with the driver's input and its interface.
    constructor (maxChildren: nat, maxDone: nat, maxEnded: nat, env: Env, captures: bool, unspawnable: set<nat>, input: string)
      ensures Valid() && children == [] && retired == [] && consumed == [] && commands == [] && this.input == input
      ensures max == (if maxChildren == 0 then 1 else maxChildren) && !idle && !driverDone && !died && fresh(ui)
      ensures this.maxDone == maxDone && this.env == env && this.captures == captures && this.unspawnable == unspawnable
      ensures ui.nStarted == 0 && ui.steady && ui.maxEnded == maxEnded && AllLines() == FileLines(input)
    {
      max := if maxChildren == 0 then 1 else maxChildren;
      this.maxDone, this.env, this.captures, this.unspawnable := maxDone, env, captures, unspawnable;
      ui := new JobTable.Ui(maxEnded);
      doneChildren, freed := [], [];
      children, idle, driverDone, died := [], false, false, false;
      this.input, consumed, fatal, commands, retired := input, [], [], [], [];
      new;
      hide JobTable.Ui.Valid, Seats, Rest, Linked, Accounted, Kept, Outfitted, FileLines;
      NothingYet();
    }

    lemma NothingYet()
      requires children == retired == doneChildren == freed == [] && consumed == fatal == commands == [] && !driverDone && !died
      requires ui.nStarted == 0 && ui.jobs == [] && ui.finished == [] && ui.failures == []
      ensures Seats() && Rest() && Linked() && Accounted() && Kept() && Outfitted() && AllLines() == FileLines(input)
    {
      hide FileLines, Placed;
      assert Commands([], env) == [] && JobsOf([]) == [] && [] + [] + FileLines(input) == FileLines(input);
    }

    // container_signal_ready: the offer is put off to an idle callback.
    method SignalReady()
      requires Valid()
      modifies this`idle
      ensures Valid() && (idle || |children| == max) && (old(idle) ==> idle)
    {
      hide Seats, Rest, Linked, Accounted, JobTable.Ui.Valid, Kept, Outfitted;
      if !idle && |children| < max {
        idle := true;
      }
    }

    // yc_ui_spawn, by way of yc_child_new: a child that cannot be made leaves no
    // trace, and the driver ends the program.
    method SpawnChild(line: string, outcome: ShellLine.Outcome)
      requires Valid() && !died && |children| < max && outcome == Reading(line, env) && IsCommand(line, env)
      modifies this`children, this`consumed, this`commands, this`died, this`fatal, ui
      ensures Valid() && consumed + fatal == old(consumed + fatal) + [line]
      ensures died <==> |old(commands)| in unspawnable
      ensures died ==> children == old(children) && commands == old(commands) && ui.nStarted == old(ui.nStarted)
      ensures !died ==> commands == old(commands) + [line] && ui.nStarted == old(ui.nStarted) + 1
      ensures !died ==> Added(old(children), |old(commands)|, Kinds(outcome, captures))
      ensures old(Clean(children)) ==> Clean(children)
    {
      hide JobTable.Ui.Valid, Child.Valid, Seats, Rest, Kinds, IsCommand, Reading, IsFatal, Commands, NoneFatal, AllOutfit, OutfitOf, Clean, Kept;
      Started();
      ghost var was := ui.nStarted;
      assert AccountedFor(was);
      hide Accounted, AccountedFor, LinkedTo;
      ghost var jobs := ui.jobs;
      LinkedParts();
      var able := ui.nStarted !in unspawnable;
      ui.RunningAreStarted();
      var job := ui.Spawn(able);
      if able {
        Begin(line, outcome, job, jobs);
      } else {
        Die(line);
      }
    }

    // The child is there, and runs.
    method Begin(line: string, outcome: ShellLine.Outcome, job: nat, ghost jobs: seq<nat>)
      requires Seats() && Rest() && AccountedFor(job) && Outfitted() && !died && job !in unspawnable
      requires outcome == Reading(line, env) && IsCommand(line, env) && job == |commands|
      requires |jobs| == |children| && ui.jobs == jobs + [job] && ui.nStarted == job + 1 && forall j | j in jobs :: j < job
      requires LinkedTo(jobs, ui.finished, ui.failures)
      modifies this`children, this`consumed, this`commands
      ensures Seats() && Rest() && Linked() && Accounted() && Outfitted() && consumed + fatal == old(consumed + fatal) + [line]
      ensures commands == old(commands) + [line] && Added(old(children), |old(commands)|, Kinds(outcome, captures))
      ensures old(Clean(children)) ==> Clean(children)
    {
      hide Child.Valid, Seats, Rest, Kinds, IsCommand, Reading, AllOutfit, OutfitOf, Clean, AccountedFor, JobsOf;
      ghost var before, cmds := children, commands;
      Seat(job, Kinds(outcome, captures));
      Account(line, job);
      assert children == before + [children[|before|]];
      AlsoLinked(before, children[|before|], jobs);
      AlsoOutfit(before, children[|before|], cmds, line, outcome);
    }

    // All have their descriptors, the new child included.
    lemma AlsoOutfit(before: seq<Child>, c: Child, cmds: seq<string>, line: string, outcome: ShellLine.Outcome)
      requires children == before + [c] && commands == cmds + [line] && AllOutfit(before, cmds) && AllOutfit(retired, cmds)
      requires outcome == Reading(line, env) && IsCommand(line, env)
      requires c.job == |cmds| && c.clean && c.SetUp(Kinds(outcome, captures))
      ensures Outfitted() && (Clean(before) ==> Clean(children))
    {
      hide Reading, IsCommand, AllOutfit, OutfitOf, Clean;
      MoreCommands(before, cmds, line);
      MoreCommands(retired, cmds, line);
      NewOutfit(c, cmds, line, outcome);
      OneMoreChild(before, c, commands);
      CleanMore(before, c);
    }

    // The new child has them.
    lemma NewOutfit(c: Child, cmds: seq<string>, line: string, outcome: ShellLine.Outcome)
      requires outcome == Reading(line, env) && IsCommand(line, env)
      requires c.job == |cmds| && c.SetUp(Kinds(outcome, captures))
      ensures OutfitOf(c.job, Ports(c.fds), cmds + [line])
    {
      hide Dressed, Kinds, ShellLine.Parse;
      KindsRight(CText(line), env, captures);
      assert Ports(c.fds) == AsPorts(Kinds(outcome, captures));
    }

    lemma Started()
      requires Accounted() && !died
      ensures fatal == [] && |commands| == ui.nStarted
    {
    }

    // One more command has been started.
    ghost method Account(line: string, was: nat)
      requires AccountedFor(was) && !died && ui.nStarted == was + 1 && was !in unspawnable && IsCommand(line, env)
      modifies this`consumed, this`commands
      ensures Accounted() && commands == old(commands) + [line] && consumed + fatal == old(consumed + fatal) + [line]
    {
      hide IsCommand, IsFatal, IsBlank, Commands, NoneFatal;
      CommandsMore(consumed, line, env);
      NotBoth(line, env);
      NoneFatalMore(consumed, line, env);
      EmptyEnd(consumed, line, fatal);
      consumed, commands := consumed + [line], commands + [line];
    }

    static lemma EmptyEnd(a: seq<string>, x: string, none: seq<string>)
      requires |none| == 0
      ensures a + [x] + none == a + none + [x]
    {
    }

    // yc_die: the process of a command could not be made.
    method Die(line: string)
      requires Accounted() && !died && IsCommand(line, env) && ui.nStarted in unspawnable
      modifies this`died, this`fatal
      ensures Accounted() && died && consumed + fatal == old(consumed + fatal) + [line]
    {
      died, fatal := true, [line];
    }

    twostate predicate Added(was: seq<Child>, job: nat, kinds: seq<Kind>)
      reads this`children, children
    {
      && |children| == |was| + 1 && children[..|was|] == was
      && var child := children[|was|]; fresh(child) && child.job == job && child.clean && child.SetUp(kinds)
    }

    static lemma NotBoth(line: string, env: Env)
      ensures IsCommand(line, env) ==> !IsFatal(line, env) && !IsBlank(line, env)
      ensures !IsCommand(line, env) ==> (IsFatal(line, env) <==> !IsBlank(line, env))
    {
    }

    // The end of yc_child_new.
    method Seat(job: nat, kinds: seq<Kind>)
      requires Seats() && Rest() && forall i | 0 <= i < |kinds| :: kinds[i].Pipe? ==> Captured(kinds[i])
      modifies this`children
      ensures Seats() && Rest() && Added(old(children), job, kinds)
    {
      hide Child.Valid;
      var child := new Child(job, kinds, |children|);
      assert OutputOnly(child) && !child.Due();
      children := children + [child];
      forall i | 0 <= i < |children|
        ensures Seated(i)
      {
        if i < |children| - 1 {
          assert old(Seated(i));
        }
      }
    }

    // stdio_read_line
    method ReadLine() returns (line: Option<string>)
      requires Accounted() && !driverDone
      modifies this`input
      ensures Accounted()
      ensures old(input) == "" ==> line == None && input == ""
      ensures old(input) != "" ==> |input| < |old(input)| && line.Some? && FileLines(old(input)) == [line.value] + FileLines(input)
    {
      if input == "" {
        return None;
      }
      hide Commands, NoneFatal, IsFatal, IsCommand, FileLines, LineEnd;
      var k := FindLineEnd(input);
      FirstLine(input);
      line := Some(input[..k]);
      input := AfterLine(input, k);
    }

    // Its loop over the characters.
    static method FindLineEnd(text: string) returns (k: nat)
      ensures k == LineEnd(text)
    {
      k := 0;
      while k < |text| && text[k] != '\n'
        invariant k <= LineEnd(text)
      {
        EndIsLater(text, k);
        k := k + 1;
      }
      EndIsHere(text, k);
    }

    static lemma FirstLine(text: string)
      requires text != ""
      ensures var k := LineEnd(text); FileLines(text) == [text[..k]] + FileLines(AfterLine(text, k))
    {
    }

    static lemma EndIsHere(text: string, k: nat)
      requires k <= LineEnd(text) && (k < |text| ==> text[k] == '\n')
      ensures k == LineEnd(text)
    {
      var head := text[..LineEnd(text)];
      assert forall i | 0 <= i < |head| :: head[i] == text[i];
    }

    static lemma EndIsLater(text: string, k: nat)
      requires k < |text| && k <= LineEnd(text) && text[k] != '\n'
      ensures k < LineEnd(text)
    {
    }

    // create_child: blank lines are passed over; a line that cannot be run ends
    // the program.
    method ReadyToSpawn()
      requires Valid() && !died && |children| < max
      modifies this`children, this`input, this`driverDone, this`died, this`fatal, this`consumed, this`commands, ui
      ensures Valid() && AllLines() == old(AllLines())
      ensures driverDone || died || |children| == |old(children)| + 1
      ensures children == old(children)
           || (!died && |children| == |old(children)| + 1 && children[..|old(children)|] == old(children) && fresh(children[|old(children)|]))
      ensures old(Clean(children)) ==> Clean(children)
    {
      hide Valid, FileLines, Rest, Clean;
      var spawned := false;
      while !driverDone && !died && !spawned
        invariant Valid() && AllLines() == old(AllLines()) && (spawned ==> !died)
        invariant if spawned then Joined(old(children)) else children == old(children)
        invariant old(Clean(children)) ==> Clean(children)
        decreases |input|, if driverDone || died || spawned then 0 else 1
      {
        spawned := TakeLine();
      }
    }

    twostate predicate Joined(was: seq<Child>)
      reads this`children
    {
      |children| == |was| + 1 && children[..|was|] == was && fresh(children[|was|])
    }

    // One round of the loop: a line is read, and run, passed over, or fatal.
    method TakeLine() returns (spawned: bool)
      requires Valid() && !died && !driverDone && |children| < max
      modifies this`children, this`input, this`driverDone, this`died, this`fatal, this`consumed, this`commands, ui
      ensures Valid() && AllLines() == old(AllLines()) && (spawned ==> !died)
      ensures if spawned then Joined(old(children)) else children == old(children)
      ensures old(Clean(children)) ==> Clean(children)
      ensures |input| <= |old(input)| && (driverDone || |input| < |old(input)|)
    {
      hide Seats, Rest, Linked, Kept, OutputOnly, Child.Valid, JobTable.Ui.Valid, Commands, FileLines, Reading, IsBlank, IsFatal,
        IsCommand, Kinds, ShellLine.Parse, CText, NoneFatal, Accounted, AccountedFor, Outfitted, Clean;
      Started();
      var next := ReadLine();
      if next.None? {
        EndOfInput();
        return false;
      }
      var line := next.value;
      LineJoins(consumed, fatal, line, FileLines(input));
      var outcome := ShellLine.ShellParse(CText(line), env, true);
      OutcomeOf(line, env);
      spawned := false;
      if !outcome.Failed? {
        SpawnChild(line, outcome);
        spawned := !died;
      } else if outcome.error.code.Empty? {
        SkipLine(line);
      } else {
        Refuse(line);
      }
    }

    static lemma LineJoins(consumed: seq<string>, none: seq<string>, line: string, rest: seq<string>)
      requires |none| == 0
      ensures consumed + none + ([line] + rest) == (consumed + none + [line]) + rest == (consumed + [line]) + none + rest
    {
    }

    method SkipLine(line: string)
      requires Accounted() && fatal == [] && IsBlank(line, env)
      modifies this`consumed
      ensures Accounted() && consumed == old(consumed) + [line]
    {
      hide IsCommand, IsFatal, IsBlank, Commands, NoneFatal;
      CommandsMore(consumed, line, env);
      NotBoth(line, env);
      NoneFatalMore(consumed, line, env);
      consumed := consumed + [line];
    }

    method EndOfInput()
      requires Accounted() && input == ""
      modifies this`driverDone
      ensures Accounted() && driverDone
    {
      driverDone := true;
    }

    // yc_die: the line cannot be understood.
    method Refuse(line: string)
      requires Accounted() && !died && IsFatal(line, env)
      modifies this`died, this`fatal
      ensures Accounted() && died && fatal == [line]
    {
      died, fatal := true, [line];
    }

    static lemma OutcomeOf(line: string, env: Env)
      ensures var outcome := ShellLine.Parse(CText(line), env, true);
        && outcome == Reading(line, env)
        && (outcome.Failed? && outcome.error.code.Empty? <==> IsBlank(line, env))
        && (outcome.Failed? && !outcome.error.code.Empty? <==> IsFatal(line, env))
        && (!outcome.Failed? <==> IsCommand(line, env))
    {
    }

    // container_ready_idle_cb: slots are offered until they are not taken.
    method IdleCb()
      requires Valid() && idle && !died
      modifies this`idle, this`children, this`input, this`driverDone, this`died, this`fatal, this`consumed, this`commands, ui
      ensures Valid() && Awake() && AllLines() == old(AllLines())
      ensures forall c | c in children :: c in old(children) || fresh(c)
      ensures old(Clean(children)) ==> Clean(children)
    {
      hide Clean, Seats, Rest, Linked, Accounted, JobTable.Ui.Valid, FileLines, Kept, Outfitted;
      idle := false;
      var declined := false;
      while |children| < max && !declined
        invariant Valid() && !idle && AllLines() == old(AllLines())
        invariant forall c | c in children :: c in old(children) || fresh(c)
        invariant old(Clean(children)) ==> Clean(children)
        invariant declined ==> driverDone || died
        invariant died ==> declined
        decreases max - |children|, if declined then 0 else 1
      {
        var before := |children|;
        ghost var was := children;
        ReadyToSpawn();
        assert forall c | c in children :: c in was || fresh(c) by {
          assert children == was || children == was + [children[|children| - 1]];
        }
        declined := |children| == before;
      }
    }

    // child_check_done: a child that has become due is told so, the interface
    // moves its job, its slot is filled by the last child, and slots are on
    // offer again.
    method CheckDone(p: nat)
      requires Midway(p) && Awake()
      modifies this`children, this`idle, this`retired, this`doneChildren, this`freed, ui
      modifies children`index, children`done, children`log
      ensures Valid() && Awake()
      ensures forall c | c in children :: c in old(children)
      ensures old(Clean(children) && Clean(retired)) ==> Clean(children) && Clean(retired)
    {
      hide Clean, Linked, Rest, Accounted, Kept, Outfitted, JobTable.Ui.Valid, Child.Valid, OutputOnly;
      if !children[p].Due() {
        return;
      }
      Retire(p);
      SignalReady();
    }

    method Retire(p: nat)
      requires Midway(p) && children[p].Due()
      modifies this`children, this`retired, this`doneChildren, this`freed, ui
      modifies children`index, children`done, children`log
      ensures Valid() && |children| < max && forall c | c in children :: c in old(children)
      ensures retired == old(retired) + [old(children)[p]]
      ensures old(Clean(children) && Clean(retired)) ==> Clean(children) && Clean(retired)
    {
      hide JobTable.Ui.Valid, Child.Valid, Accounted, OutputOnly, AllOutfit, Clean, LinkedTo, AtRest, Kept;
      var c := children[p];
      OneSlotEach(p);
      LinkedParts();
      Dismiss(c, p);
      Rearrange(p, c);
    }

    // Its slot is filled, and it is kept or freed.
    method Rearrange(p: nat, c: Child)
      requires 0 < max && p < |children| <= max && c == children[p] && c.Valid() && c.done && c.index == p
      requires forall j, k | 0 <= j < k < |children| :: children[j] != children[k]
      requires forall j, k | 0 <= j < |children| && 0 <= k < |retired| :: children[j] != retired[k]
      requires forall k | 0 <= k < |children| && k != p :: Seated(k)
      requires ui.Valid() && Rest() && Accounted() && Kept() && Outfitted()
      requires forall i, j | 0 <= i < j < |children| :: children[i].job != children[j].job
      requires |ui.jobs| == |children| - 1 && forall i | 0 <= i < |children| && i != p :: children[i].job in ui.jobs
      requires ui.finished == JobsOf(retired) + [c.job] && |ui.failures| == |retired| + 1
      requires forall i | 0 <= i < |retired| :: ui.failures[i] <==> retired[i].status != Exited(0)
      requires ui.failures[|retired|] <==> c.status != Exited(0)
      modifies this`children, this`retired, this`doneChildren, this`freed, children`index
      ensures Valid() && |children| < max && forall c | c in children :: c in old(children)
      ensures retired == old(retired) + [c]
      ensures old(Clean(children) && Clean(retired)) ==> Clean(children) && Clean(retired)
    {
      hide JobTable.Ui.Valid, Child.Valid, Accounted, Seats, Seated, AllOutfit, OutfitOf, Clean, Linked, AtRest, Kept, JobsOf;
      ghost var were, gone := children, retired;
      LeaveOut(children, p);
      CleanMoves(children, retired, p);
      Vacate(p, children[|children| - 1]);
      OneMoreChild(retired, c, commands);
      MoreAtRest(retired, c);
      Retain(c);
      Relinked(were, p, gone);
    }

    lemma LeaveOut(cs: seq<Child>, p: nat)
      requires AllOutfit(cs, commands) && p < |cs|
      ensures AllOutfit(cs[p := cs[|cs| - 1]][..|cs| - 1], commands) && OutfitOf(cs[p].job, Ports(cs[p].fds), commands)
    {
      hide OutfitOf;
    }

    lemma LinkedParts()
      requires Linked()
      ensures forall i | 0 <= i < |children| :: children[i].job in ui.jobs
      ensures |ui.jobs| == |children| && ui.finished == JobsOf(retired) && |ui.failures| == |retired|
      ensures forall i, j | 0 <= i < j < |children| :: children[i].job != children[j].job
      ensures forall i | 0 <= i < |retired| :: ui.failures[i] <==> retired[i].status != Exited(0)
    {
    }

    lemma AlsoLinked(before: seq<Child>, c: Child, jobs: seq<nat>)
      requires children == before + [c] && ui.jobs == jobs + [c.job] && |jobs| == |before|
      requires forall i | 0 <= i < |before| :: before[i].job in jobs
      requires forall i, j | 0 <= i < j < |before| :: before[i].job != before[j].job
      requires forall j | j in jobs :: j < c.job
      requires ui.finished == JobsOf(retired) && |ui.failures| == |retired|
      requires forall i | 0 <= i < |retired| :: ui.failures[i] <==> retired[i].status != Exited(0)
      ensures Linked()
    {
    }

    // The child p has moved from those that run to those that are done.
    lemma Relinked(were: seq<Child>, p: nat, gone: seq<Child>)
      requires p < |were| && children == were[p := were[|were| - 1]][..|were| - 1] && retired == gone + [were[p]]
      requires forall i, j | 0 <= i < j < |were| :: were[i].job != were[j].job
      requires |ui.jobs| == |were| - 1 && forall i | 0 <= i < |were| && i != p :: were[i].job in ui.jobs
      requires ui.finished == JobsOf(gone) + [were[p].job] && |ui.failures| == |gone| + 1
      requires forall i | 0 <= i < |gone| :: ui.failures[i] <==> gone[i].status != Exited(0)
      requires ui.failures[|gone|] <==> were[p].status != Exited(0)
      ensures Linked()
    {
      assert JobsOf(retired) == JobsOf(gone) + [were[p].job];
    }

    // container_retain_done_child: the oldest are freed until there is room.
    method Retain(child: Child)
      requires Kept()
      modifies this`retired, this`doneChildren, this`freed
      ensures Kept() && retired == old(retired) + [child] && old(freed) <= freed
      ensures retired == freed + doneChildren && |doneChildren| == if |retired| < maxDone then |retired| else maxDone
    {
      retired := retired + [child];
      if maxDone == 0 {
        freed := freed + [child];
        return;
      }
      while |doneChildren| >= maxDone
        invariant retired == old(retired) + [child] == freed + doneChildren + [child]
        invariant |doneChildren| <= maxDone && old(freed) <= freed
        invariant |doneChildren| >= if |retired| < maxDone then |retired| - 1 else maxDone - 1
        decreases |doneChildren|
      {
        freed := freed + [doneChildren[0]];
        doneChildren := doneChildren[1..];
      }
      doneChildren := doneChildren + [child];
    }

    // The child and the interface are told.
    method Dismiss(c: Child, p: nat)
      requires Midway(p) && c == children[p] && c.Due()
      modifies c`done, c`log, ui
      ensures c.Valid() && c.done && c.index == p && ui.Valid() && Rest() && Accounted()
      ensures |ui.jobs| == |children| - 1 && forall i | 0 <= i < |children| && i != p :: children[i].job in ui.jobs
      ensures ui.finished == old(ui.finished) + [c.job] && ui.failures == old(ui.failures) + [c.status != Exited(0)]
      ensures c.fds == old(c.fds) && c.status == old(c.status) && c.clean == old(c.clean)
      ensures forall i | 0 <= i < |children| && i != p :: Seated(i)
    {
      hide JobTable.Ui.Valid, Child.Valid, Accounted, OutputOnly;
      OneSlotEach(p);
      ui.JobsIncrease();
      JobTable.Ui.OthersStay(ui.jobs, c.job);
      OtherJobs(p);
      c.EmitDone();
      ui.Finish(c.job, c.Failed());
      forall i | 0 <= i < |children| && i != p
        ensures Seated(i)
      {
        assert old(Placed(i)) && children[i] != c;
      }
    }

    lemma OtherJobs(p: nat)
      requires Linked() && p < |children|
      ensures forall i | 0 <= i < |children| && i != p :: children[i].job != children[p].job
    {
    }

    // The last child takes over a slot.
    method Vacate(i: nat, last: Child)
      requires i < |children| && last == children[|children| - 1]
      requires forall j, k | 0 <= j < k < |children| :: children[j] != children[k]
      requires forall k | 0 <= k < |children| && k != i :: Seated(k)
      requires children[i].Valid() && children[i].index == i
      modifies this`children, last`index
      ensures children == old(children)[i := last][..|old(children)| - 1] && Seats() && last.Valid()
    {
      hide Child.Valid, OutputOnly;
      if i < |children| - 1 {
        assert Seated(|children| - 1);
      }
      ghost var was := children;
      last.Reseat(i);
      children := children[i := last][..|children| - 1];
      forall k | 0 <= k < |children|
        ensures Seated(k)
      {
        if k != i {
          assert old(Seated(k)) && children[k] == was[k] != was[|was| - 1];
        } else {
          assert old(Seated(|children| - 1));
        }
      }
    }

    // No child has two slots, and none that is done has one.
    lemma OneSlotEach(p: nat)
      requires Midway(p)
      ensures forall i, j | 0 <= i < j < |children| :: children[i] != children[j]
      ensures forall i, j | 0 <= i < |children| && 0 <= j < |retired| :: children[i] != retired[j]
    {
      forall i, j | 0 <= i < j < |children|
        ensures children[i] != children[j]
      {
        assert Placed(i) && Placed(j);
      }
      forall i, j | 0 <= i < |children| && 0 <= j < |retired|
        ensures children[i] != retired[j]
      {
        assert Placed(i);
      }
    }

    // ---- whole runs ----

    // What libuv or a child may do now.
    predicate Enabled(e: Event)
      reads this, children
    {
      match e
      case Idle => idle
      case Exit(p, _, _) => p < |children| && !children[p].exited
      case ProcessClosed(p) => p < |children| && children[p].exited && children[p].processLive
      case Poll(p, f, readable, writable, _, _, _) =>
        && p < |children| && f < |children[p].fds| && children[p].fds[f].pollStarted
        && (readable ==> children[p].fds[f].watchRead) && (writable ==> children[p].fds[f].watchWrite)
      case PollFails(p, f) => p < |children| && f < |children[p].fds| && children[p].fds[f].pollStarted
      case PollClosed(p, f) => p < |children| && f < |children[p].fds| && children[p].fds[f].closing
      case Write(p, f, _) => p < |children| && f < |children[p].fds| && f < |children[p].far| && children[p].far[f].open
      case CloseWriters(p, f) => p < |children| && f < |children[p].fds|
    }

    // A callback that leaves its child as undue as before.
    method Quietly(p: nat, e: Event)
      requires Valid() && Enabled(e) && p < |children|
      requires e.Exit? || e.Poll? || e.PollFails? || e.Write? || e.CloseWriters?
      requires p == e.child
      modifies children[p]
      ensures Valid() && (old(Clean(children)) && !e.Fails() ==> Clean(children))
      ensures old(Clean(retired)) ==> Clean(retired)
      ensures e.Ends(old(children[p].status), children[p].status)
    {
      hide Child.Valid, JobTable.Ui.Valid, Accounted, Linked, OutfitOf, Child.Due, Event.Ends, Event.Added;
      var c := children[p];
      assert Seated(p);
      Distinctly();
      ChildEvent(c, e);
    }

    lemma Distinctly()
      requires Valid()
      ensures forall i, j | 0 <= i < j < |children| :: children[i] != children[j]
      ensures forall i, j | 0 <= i < |children| && 0 <= j < |retired| :: children[i] != retired[j]
    {
      forall i, j | 0 <= i < j < |children|
        ensures children[i] != children[j]
      {
        assert Seated(i) && Seated(j);
      }
      forall i, j | 0 <= i < |children| && 0 <= j < |retired|
        ensures children[i] != retired[j]
      {
        assert Seated(i);
      }
    }

    static method ChildEvent(c: Child, e: Event)
      requires c.Valid() && !c.done && !c.Due()
      requires match e
        case Exit(_, _, _) => !c.exited
        case Poll(_, f, readable, writable, _, _, _) =>
          && f < |c.fds| && c.fds[f].pollStarted && (readable ==> c.fds[f].watchRead) && (writable ==> c.fds[f].watchWrite)
        case PollFails(_, f) => f < |c.fds| && c.fds[f].pollStarted
        case Write(_, f, _) => f < |c.fds| && c.far[f].open
        case CloseWriters(_, f) => f < |c.fds|
        case _ => false
      modifies c
      ensures c.Valid() && c.done == old(c.done) && c.index == old(c.index) && !c.Due()
      ensures |c.fds| == old(|c.fds|) && forall k | 0 <= k < |c.fds| :: c.fds[k].kind == old(c.fds)[k].kind
      ensures Ports(c.fds) == old(Ports(c.fds)) && (old(c.clean) && !e.Fails() ==> c.clean)
      ensures e.Ends(old(c.status), c.status) && (c.exited <==> old(c.exited) || e.Exit?)
      ensures |c.far| == old(|c.far|) && forall k | 0 <= k < |c.far| :: c.far[k].written == old(c.far)[k].written + e.Added(k)
      ensures forall k | 0 <= k < |c.far| :: c.far[k].open == (old(c.far)[k].open && !(e.CloseWriters? && e.fd == k))
    {
      hide Child.Valid, Child.Progressed;
      c.FarEnds();
      match e {
        case Exit(_, status, signal) => c.ExitCb(status, signal);
        case Poll(_, f, readable, writable, hangup, n, readFails) => c.PollCb(f, readable, writable, hangup, n, readFails);
        case PollFails(_, f) => c.PollFails(f);
        case Write(_, f, data) => c.Write(f, data);
        case CloseWriters(_, f) => c.CloseWriters(f);
      }
      c.FarEnds();
    }

    // The callbacks that end in child_check_done.
    method Loudly(p: nat, e: Event)
      requires Valid() && Enabled(e) && (e.ProcessClosed? || e.PollClosed?) && p == e.child
      modifies children[p]
      ensures Midway(p) && (old(Clean(children)) ==> Clean(children)) && (old(Clean(retired)) ==> Clean(retired))
      ensures children[p].status == old(children[p].status)
    {
      hide Child.Valid, JobTable.Ui.Valid, Accounted, Linked, OutfitOf;
      var c := children[p];
      assert Seated(p);
      Distinctly();
      ghost var ports := Ports(c.fds);
      if e.ProcessClosed? {
        c.ProcessClosedCb();
      } else {
        c.PollClosedCb(e.fd);
      }
      assert Ports(c.fds) == ports;
      forall i | 0 <= i < |children|
        ensures Placed(i) && (i != p ==> !children[i].Due())
      {
        if i != p {
          assert old(Seated(i));
        }
      }
    }

    method Step(e: Event)
      requires Valid() && Awake() && !died && Enabled(e)
      modifies this`idle, this`children, this`input, this`driverDone, this`died, this`fatal, this`consumed, this`commands
      modifies this`retired, this`doneChildren, this`freed, ui, children
      ensures Valid() && Awake() && AllLines() == old(AllLines())
      ensures forall c | c in children :: c in old(children) || fresh(c)
      ensures old(Clean(children) && Clean(retired)) && !e.Fails() ==> Clean(children) && Clean(retired)
      ensures forall c | c in old(children) ::
        if e.Exit? && c == old(children)[e.child] then e.Ends(old(c.status), c.status) else c.status == old(c.status)
    {
      hide Clean, Valid, Accounted, FileLines, JobTable.Ui.Valid, Placed, Midway;
      match e
      case Idle => IdleCb();
      case ProcessClosed(p) => Loudly(p, e); CheckDone(p);
      case PollClosed(p, _) => Loudly(p, e); CheckDone(p);
      case _ => Quietly(e.child, e);
    }

    // yc_child_container_run, over whatever happens; what is not enabled does
    // not happen, and nothing does once the program has ended.
    method Run(events: seq<Event>)
      requires Valid() && !died
      modifies this`idle, this`children, this`input, this`driverDone, this`died, this`fatal, this`consumed, this`commands
      modifies this`retired, this`doneChildren, this`freed, ui, children
      ensures Valid() && Awake() && AllLines() == old(AllLines())
      ensures !died && !Active() ==> Unwound(old(AllLines()))
      ensures old(Clean(children) && Clean(retired)) && (forall k | 0 <= k < |events| :: !events[k].Fails()) ==>
        Clean(children) && Clean(retired)
    {
      hide Clean, Outfitted, Seats, Rest, Linked, Accounted, Enabled, JobTable.Ui.Valid, FileLines;
      SignalReady();
      ghost var start := children;
      for k := 0 to |events|
        invariant Valid() && Awake() && AllLines() == old(AllLines())
        invariant forall c | c in children :: c in start || fresh(c)
        invariant old(Clean(children) && Clean(retired)) && (forall j | 0 <= j < k :: !events[j].Fails()) ==>
          Clean(children) && Clean(retired)
      {
        hide Valid;
        assert forall i | 0 <= i < |children| :: children[i] in start || fresh(children[i]);
        if !died && Enabled(events[k]) {
          Step(events[k]);
        }
      }
      if !died && !Active() {
        AllIsDone();
      }
    }

    // When the loop unwinds: no line was fatal; every command of the input has
    // been started, in its order, as job 0, 1, 2 and so on; every job has ended,
    // and those count as failed that did not exit with status 0; each had its
    // output captured as it should; and what was captured without errors has
    // been delivered in full, and told line by line.
    ghost predicate Unwound(lines: seq<string>)
      reads this, ui, retired
    {
      && children == [] && driverDone && commands == Commands(lines, env)
      && (forall i | 0 <= i < |lines| ::
            var outcome := ShellLine.Parse(CText(lines[i]), env, true); outcome.Failed? ==> outcome.error.code.Empty?)
      && Spawnable(|commands|)
      && ui.nStarted == ui.nEnded == |commands| == |retired| && ui.jobs == []
      && (forall j: nat :: j in ui.finished <==> j < |commands|) && ui.finished == JobsOf(retired)
      && ui.nFailed == |set i | 0 <= i < |retired| && retired[i].status != Exited(0)|
      && (forall i | 0 <= i < |retired| :: retired[i].done && Whole(retired[i]))
      && (forall i | 0 <= i < |retired| ::
            && retired[i].job < |commands|
            && Dressed(Ports(retired[i].fds), CText(commands[retired[i].job]), env, captures))
      && retired == freed + doneChildren && |doneChildren| == if |retired| < maxDone then |retired| else maxDone
    }

    // The program ends only at a line that cannot be understood, or be run; the
    // commands before it have been started.
    lemma DiedRightly()
      requires Valid() && died
      ensures |fatal| == 1 && AllLines() == consumed + fatal + FileLines(input)
      ensures commands == Commands(consumed, env) && |commands| == ui.nStarted
      ensures match ShellLine.Parse(CText(fatal[0]), env, true)
        case Failed(error) => !error.code.Empty?
        case _ => |commands| in unspawnable
    {
      hide ShellLine.Parse, CText, Commands, Child.Valid, JobTable.Ui.Valid, NoneFatal;
    }

    ghost predicate Whole(c: Child)
      reads c
    {
      && |c.far| == |c.fds|
      && (c.clean ==> forall k | 0 <= k < |c.fds| && c.fds[k].kind == Pipe(false, true) ::
            && Stream(c.received, c.fds[k].number) == c.far[k].written && !c.far[k].open
            && (1 <= c.fds[k].number <= 2 ==> Of(LinesIn(c.log), c.fds[k].number) == LinesOf(c.far[k].written)))
    }

    lemma AllIsDone()
      requires Valid() && Awake() && !died && !Active()
      ensures Unwound(AllLines())
    {
      hide IsFatal, Commands;
      if children != [] {
        assert Seated(0);
        children[0].NotDueIsActive();
      }
      assert AllLines() == consumed;
      NoneFatalIs(consumed, env);
      FailedOnes();
      forall i | 0 <= i < |retired|
        ensures Whole(retired[i])
      {
        WholeInTheEnd(retired[i]);
      }
    }

    lemma FailedOnes()
      requires ui.Valid() && Linked()
      ensures ui.nFailed == |set i | 0 <= i < |retired| && retired[i].status != Exited(0)|
    {
      JobTable.CountIs(ui.failures);
      assert (set i | 0 <= i < |ui.failures| && ui.failures[i])
          == set i | 0 <= i < |retired| && retired[i].status != Exited(0);
    }

    lemma WholeInTheEnd(c: Child)
      requires c.Valid() && c.done
      ensures Whole(c)
    {
      if c.clean {
        forall k | 0 <= k < |c.fds| && c.fds[k].kind == Pipe(false, true)
          ensures Stream(c.received, c.fds[k].number) == c.far[k].written && !c.far[k].open
          ensures 1 <= c.fds[k].number <= 2 ==> Of(LinesIn(c.log), c.fds[k].number) == LinesOf(c.far[k].written)
        {
          c.NoOutputLost(k);
          if FIRST_CAPTURED <= c.fds[k].number < FIRST_CAPTURED + N_CAPTURED {
            c.LinesTold(k);
          }
        }
      }
    }
  }
}
