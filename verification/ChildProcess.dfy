// One child process and its pipes: the callbacks of src/yc-child.c, with those
// that src/yc-ui.c hangs on them.  libuv and the operating system are free to
// call in any order.
module ChildProcess {
  import opened Basics
  import opened LineDelivery

  // What is read at once.
  const READ_CHUNK := 8192

  // How a descriptor of the child is set up; from the child's side, as a pipe
  // that it reads, one that it writes, or both.
  datatype Kind = Plain | Pipe(childReads: bool, childWrites: bool)

  // Output is captured from pipes that the child only writes to.
  predicate Captured(kind: Kind) {
    kind.Pipe? && kind.childWrites && !kind.childReads
  }

  // YcChildFd: `pipe` while we have our end, `closing` while its close is pending.
  datatype Fd = Fd(
    number: int, kind: Kind, pipe: bool, watchRead: bool, watchWrite: bool,
    pollInited: bool, pollStarted: bool, closing: bool)

  // What never changes of a descriptor.
  datatype Port = Port(number: int, kind: Kind)

  ghost function Ports(fds: seq<Fd>): (ports: seq<Port>)
    ensures |ports| == |fds|
  {
    seq(|fds|, k requires 0 <= k < |fds| => Port(fds[k].number, fds[k].kind))
  }

  // The other side of a pipe: what has been written, how much of it has been
  // read, and whether anyone can still write.
  datatype Far = Far(written: seq<byte>, taken: nat, open: bool)

  // What the child's owner is told; a line, by way of the interface.
  datatype Callback = Io(fd: int) | Closed(fd: int) | Line(what: Delivery) | Done

  // The lines among the callbacks, in order.
  ghost function LinesIn(log: seq<Callback>): seq<Delivery> {
    if log == [] then []
    else LinesIn(log[..|log| - 1]) + if log[|log| - 1].Line? then [log[|log| - 1].what] else []
  }

  ghost function AsLines(told: seq<Delivery>): (log: seq<Callback>)
    ensures |log| == |told|
  {
    seq(|told|, i requires 0 <= i < |told| => Line(told[i]))
  }

  lemma OtherCallback(log: seq<Callback>, c: Callback)
    requires !c.Line?
    ensures LinesIn(log + [c]) == LinesIn(log)
  {
    assert (log + [c])[..|log|] == log;
  }

  lemma {:induction false} MoreLines(log: seq<Callback>, told: seq<Delivery>)
    ensures LinesIn(log + AsLines(told)) == LinesIn(log) + told
    decreases |told|
  {
    if told == [] {
      assert log + AsLines(told) == log;
    } else {
      var k := |told| - 1;
      MoreLines(log, told[..k]);
      var all := log + AsLines(told);
      assert all[..|all| - 1] == log + AsLines(told[..k]);
      assert told == told[..k] + [told[k]];
    }
  }

  // How a process ended; an exit status is kept as a C int.
  datatype Status = Running | Exited(value: int) | Killed(signal: int)

  function AsInt32(x: int): int {
    (x + 0x8000_0000) % 0x1_0000_0000 - 0x8000_0000
  }

  lemma AsInt32Is(x: int)
    ensures -0x8000_0000 <= AsInt32(x) < 0x8000_0000 && (AsInt32(x) - x) % 0x1_0000_0000 == 0
  {
    Congruent(x + 0x8000_0000);
  }

  lemma Congruent(y: int)
    ensures (y % 0x1_0000_0000 - y) % 0x1_0000_0000 == 0
  {
  }

  // May a hangup close the pipe, for one set of events?
  predicate HangupCloses(fd: Fd, readable: bool, writable: bool, hangup: bool) {
    !readable && hangup && (writable || !fd.watchRead)
  }

  // A hangup never closes a pipe that is watched for reading while something may
  // be left in it, exactly if the pipe is not watched for writing as well.
  lemma HangupSpares(fd: Fd)
    requires fd.watchRead
    ensures (forall readable, writable, hangup | (readable ==> fd.watchRead) && (writable ==> fd.watchWrite) ::
              !HangupCloses(fd, readable, writable, hangup))
       <==> !fd.watchWrite
  {
    assert fd.watchWrite ==> HangupCloses(fd, false, true, true);
  }

  predicate Started(fd: Fd) {
    fd.pollInited && (fd.watchRead || fd.watchWrite)
  }

  // The states a descriptor can be in once the child runs.
  predicate FdOk(fd: Fd) {
    && (fd.pipe <==> fd.pollInited) && (fd.pollStarted <==> Started(fd))
    && (fd.closing ==> !fd.pipe) && (fd.pipe ==> fd.kind.Pipe?)
    && (!fd.pipe ==> !fd.watchRead && !fd.watchWrite)
    && (fd.pipe && Captured(fd.kind) ==> fd.watchRead && !fd.watchWrite)
  }

  // Poll handles that libuv still knows.
  function Live(fds: seq<Fd>): nat {
    if fds == [] then 0
    else Live(fds[..|fds| - 1]) + if fds[|fds| - 1].pollInited || fds[|fds| - 1].closing then 1 else 0
  }

  lemma {:induction false} LiveUpdate(fds: seq<Fd>, i: nat, fd: Fd)
    requires i < |fds|
    ensures Live(fds[i := fd]) + (if fds[i].pollInited || fds[i].closing then 1 else 0)
         == Live(fds) + if fd.pollInited || fd.closing then 1 else 0
  {
    var k := |fds| - 1;
    if i == k {
      assert fds[i := fd][..k] == fds[..k];
    } else {
      assert fds[i := fd][..k] == fds[..k][i := fd];
      LiveUpdate(fds[..k], i, fd);
    }
  }

  lemma {:induction false} LiveNone(fds: seq<Fd>)
    ensures Live(fds) == 0 <==> forall i | 0 <= i < |fds| :: !fds[i].pollInited && !fds[i].closing
  {
    if fds != [] {
      var k := |fds| - 1;
      LiveNone(fds[..k]);
      assert forall i | 0 <= i < k :: fds[..k][i] == fds[i];
    }
  }

  // What has been read is the beginning of what was written; and when our end
  // of a captured pipe is gone, it is all of it.
  ghost predicate Faithful(fd: Fd, far: Far, received: seq<Chunk>, clean: bool) {
    && far.taken <= |far.written|
    && (Captured(fd.kind) ==> Stream(received, fd.number) == far.written[..far.taken])
    && (Captured(fd.kind) && clean && !fd.pipe ==> !far.open && far.taken == |far.written|)
  }

  class Child {
    const job: nat
    var fds: seq<Fd>
    var handles: nat
    var exited: bool
    var status: Status
    var done: bool
    var index: nat
    ghost var log: seq<Callback>     // what the owner was told
    var received: seq<Chunk>
    // What libuv and the operating system hold.
    var processLive: bool
    var far: seq<Far>
    ghost var waiting: Waiting       // what the interface holds of unfinished lines
    ghost var clean: bool            // no error, and no pipe closed before its end

    ghost predicate Valid()
      reads this
    {
      && |far| == |fds|
      && (forall i | 0 <= i < |fds| :: FdOk(fds[i]) && Faithful(fds[i], far[i], received, clean)) && Numbered(fds)
      && handles == (if processLive then 1 else 0) + Live(fds)
      && (!processLive ==> exited)
      && (done ==> exited && handles == 0)
      && (exited <==> !status.Running?)
      && DoneIsLast() && Spoken()
    }

    static ghost predicate Numbered(fds: seq<Fd>) {
      forall i, j | 0 <= i < j < |fds| :: fds[i].number != fds[j].number
    }

    ghost predicate DoneIsLast()
      reads this`log, this`done
    {
      (forall k | 0 <= k < |log| :: log[k].Done? <==> done && k == |log| - 1) && (done ==> log != [])
    }

    // The lines told so far, and all of them once the child is done.
    ghost predicate Spoken()
      reads this`log, this`received, this`waiting, this`done
    {
      if done then SaidAll(LinesIn(log), received) else Keeps(LinesIn(log), waiting, received)
    }

    // The end of yc_child_new, once the process runs: every pipe is polled.
    constructor (job: nat, kinds: seq<Kind>, index: nat)
      ensures Valid() && !done && !exited && processLive && clean && this.job == job && this.index == index
      ensures SetUp(kinds) && |far| == |fds| && forall i | 0 <= i < |far| :: far[i] == Far([], 0, kinds[i].Pipe?)
      ensures log == [] && received == []
    {
      this.job := job;
      fds := seq(|kinds|, i requires 0 <= i < |kinds| => NewFd(i, kinds[i]));
      handles, exited, status, done := 0, false, Running, false;
      this.index := index;
      log, received, waiting, clean, processLive := [], [], NONE_WAITING, true, true;
      far := seq(|kinds|, i requires 0 <= i < |kinds| => Far([], 0, kinds[i].Pipe?));
      new;
      hide Keeps, SaidAll, Stream, Live;
      StartPolls();
      NothingRead();
      KeepsNothing();
    }

    ghost predicate SetUp(kinds: seq<Kind>)
      reads this`fds
    {
      |fds| == |kinds| && forall i | 0 <= i < |fds| :: fds[i] == NewFd(i, kinds[i])
    }

    // The process handle, and a poll handle for each pipe.
    method StartPolls()
      requires forall i | 0 <= i < |fds| :: !fds[i].closing
      modifies this`handles
      ensures handles == 1 + Live(fds)
    {
      handles := 1;
      for i := 0 to |fds|
        invariant handles == 1 + Live(fds[..i])
      {
        assert fds[..i + 1][..i] == fds[..i];
        if fds[i].pollInited {
          handles := handles + 1;
        }
      }
      assert fds[..|fds|] == fds;
    }

    static function NewFd(number: int, kind: Kind): Fd {
      var read, write := kind.Pipe? && kind.childWrites, kind.Pipe? && kind.childReads;
      Fd(number, kind, kind.Pipe?, read, write, kind.Pipe?, read || write, false)
    }

    lemma NothingRead()
      ensures forall fd :: Stream([], fd) == []
    {
    }

    // The child moves to another slot.
    method Reseat(i: nat)
      requires Valid()
      modifies this`index
      ensures Valid() && index == i
    {
      index := i;
    }

    lemma FarEnds()
      requires Valid()
      ensures |far| == |fds| && (!exited || processLive ==> handles > 0)
    {
    }

    // ---- the other side ----

    // The process, or one that it started, writes to a pipe.
    method Write(i: nat, data: seq<byte>)
      requires Valid() && i < |fds| && far[i].open
      modifies this`far
      ensures Valid() && far == old(far)[i := Far(old(far)[i].written + data, old(far)[i].taken, true)]
    {
      far := far[i := Far(far[i].written + data, far[i].taken, true)];
    }

    // The last of them has let go of it.
    method CloseWriters(i: nat)
      requires Valid() && i < |fds|
      modifies this`far
      ensures Valid() && far == old(far)[i := old(far)[i].(open := false)]
    {
      far := far[i := far[i].(open := false)];
    }

    // ---- descriptors ----

    // yc_child_fd_watch, by way of child_fd_apply_watch.
    method Unwatch(i: nat)
      requires Valid() && i < |fds| && !Captured(fds[i].kind) && !done
      modifies this`fds
      ensures Valid() && |fds| == old(|fds|)
      ensures fds == if old(fds)[i].pipe then old(fds)[i := old(fds)[i].(watchRead := false, watchWrite := false, pollStarted := false)]
                     else old(fds)
    {
      if !fds[i].pipe {
        return;
      }
      var fd := fds[i].(watchRead := false, watchWrite := false, pollStarted := false);
      LiveUpdate(fds, i, fd);
      fds := fds[i := fd];
    }

    // What one read() returns: some of what is there, up to a chunk.
    static function ReadCount(n: nat, far: Far): (count: nat)
      ensures count == 0 <==> far.taken >= |far.written|
      ensures count <= 8192 && (0 < n <= 8192 && far.taken + n <= |far.written| ==> count == n)
      ensures (far.taken <= |far.written| ==> far.taken + count <= |far.written|)
    {
      if far.taken >= |far.written| then 0
      else
        var available := |far.written| - far.taken;
        var most := if available < READ_CHUNK then available else READ_CHUNK;
        if 0 < n <= most then n else most
    }

    // Everything has been read, and nobody is left to write.
    static predicate AtEnd(far: Far) {
      !far.open && far.taken == |far.written|
    }

    lemma ClosedIsFaithful(i: nat, fd: Fd, clean': bool)
      requires Valid() && i < |fds| && fd.kind == fds[i].kind && fd.number == fds[i].number && !fd.pipe
      requires clean' == (clean && (Captured(fd.kind) ==> AtEnd(far[i]))) && FdOk(fd)
      ensures forall k | 0 <= k < |fds| :: FdOk(fds[i := fd][k]) && Faithful(fds[i := fd][k], far[k], received, clean')
      ensures Numbered(fds[i := fd])
    {
      hide Stream;
    }

    // yc_child_fd_close: the poll handle must go first, and with it our end.
    method Close(i: nat)
      requires Valid() && i < |fds| && !done
      modifies this`fds, this`log, this`clean
      ensures Valid() && |fds| == old(|fds|)
      ensures clean == (old(clean) && (old(fds)[i].pipe && Captured(fds[i].kind) ==> AtEnd(far[i])))
      ensures if old(fds)[i].pipe
              then fds == old(fds)[i := old(fds)[i].(pipe := false, watchRead := false, watchWrite := false,
                                                     pollInited := false, pollStarted := false, closing := true)]
                && log == old(log) + [Closed(fds[i].number)]
              else fds == old(fds) && log == old(log)
    {
      if !fds[i].pipe {
        return;
      }
      var fd := fds[i].(pipe := false, watchRead := false, watchWrite := false,
                        pollInited := false, pollStarted := false, closing := true);
      LiveUpdate(fds, i, fd);
      ClosedIsFaithful(i, fd, clean && (Captured(fd.kind) ==> AtEnd(far[i])));
      hide Keeps, SaidAll, LinesIn, Live, Stream, Faithful, FdOk, Numbered, DoneIsLast, Spoken;
      clean := clean && (Captured(fd.kind) ==> AtEnd(far[i]));
      fds := fds[i := fd];
      CallBack(Closed(fd.number));
    }

    // The owner is told something.
    ghost method CallBack(c: Callback)
      requires DoneIsLast() && Spoken() && !done && (c.Io? || c.Closed?)
      modifies this`log
      ensures DoneIsLast() && Spoken() && log == old(log) + [c]
    {
      hide Keeps, LinesIn;
      OtherCallback(log, c);
      log := log + [c];
    }

    // ---- callbacks ----

    // ui_child_io: one read.  Nothing to read and nobody left to write is the
    // end of the stream; nothing to read yet is no reason to do anything.
    method UiIo(i: nat, readable: bool, n: nat, readFails: bool)
      requires Valid() && i < |fds| && fds[i].pipe && !done && (readable ==> fds[i].watchRead)
      requires !readable ==> !Captured(fds[i].kind)
      modifies this`fds, this`log, this`far, this`received, this`waiting, this`clean
      ensures Valid() && |fds| == old(|fds|)
      ensures forall k | 0 <= k < |fds| && k != i :: fds[k] == old(fds)[k] && far[k] == old(far)[k]
      ensures fds[i].number == old(fds)[i].number && fds[i].kind == old(fds)[i].kind
      ensures far[i].written == old(far)[i].written && far[i].open == old(far)[i].open
      ensures clean == (old(clean) && !(readable && readFails))
      ensures fds[i].pipe ==> fds[i].watchRead == (readable && old(fds)[i].watchRead)
      ensures !fds[i].pipe <==> readable && (readFails || AtEnd(old(far)[i]))
      ensures Progressed(old(far)[i], far[i], old(received), received, fds[i].number)
      ensures far[i].taken - old(far)[i].taken == if readable && !readFails then ReadCount(n, old(far)[i]) else 0
      ensures log == if !fds[i].pipe then old(log) + [Closed(fds[i].number)]
                     else old(log) + AsLines(FinishedBy(old(far)[i], far[i], old(waiting), fds[i].number))
    {
      hide Keeps, SaidAll, LinesIn, Finishes, Leaves;
      assert log + AsLines([]) == log;
      if !readable {
        Unwatch(i);
        return;
      }
      if readFails {
        clean := false;
        Close(i);
        return;
      }
      var available := |far[i].written| - far[i].taken;
      if available > 0 {
        Take(i, ReadCount(n, far[i]));
        return;
      }
      if !far[i].open {
        Close(i);
      }
    }

    // A read is a part of what is there, and in its order.
    static ghost predicate Progressed(before: Far, after: Far, was: seq<Chunk>, is_: seq<Chunk>, fd: int) {
      before.taken <= after.taken <= |after.written| && before.written <= after.written
      && is_ == if after.taken == before.taken then was else was + [Chunk(fd, after.written[before.taken..after.taken])]
    }

    // The lines that were finished by what was read in between.
    static ghost function FinishedBy(before: Far, after: Far, w: Waiting, fd: int): seq<Delivery>
      requires before.taken <= after.taken <= |after.written|
    {
      if after.taken == before.taken then [] else Finishes(w, Chunk(fd, after.written[before.taken..after.taken]))
    }

    // read() returns count bytes, and they are delivered.
    method Take(i: nat, count: nat)
      requires Valid() && i < |fds| && fds[i].pipe && 0 < count && far[i].taken + count <= |far[i].written|
      requires !done
      modifies this`far, this`received, this`waiting, this`log
      ensures Valid() && far == old(far)[i := old(far)[i].(taken := old(far)[i].taken + count)]
      ensures received == old(received) + [Chunk(fds[i].number, far[i].written[old(far)[i].taken..far[i].taken])]
      ensures log == old(log) + AsLines(FinishedBy(old(far)[i], far[i], old(waiting), fds[i].number))
    {
      hide Keeps, SaidAll, LinesIn, Finishes, Leaves;
      var from := far[i].taken;
      ghost var was := received;
      var chunk := Chunk(fds[i].number, far[i].written[from..from + count]);
      far := far[i := far[i].(taken := from + count)];
      received := received + [chunk];
      KeepsMore(LinesIn(log), waiting, was, chunk);
      MoreLines(log, Finishes(waiting, chunk));
      log, waiting := log + AsLines(Finishes(waiting, chunk)), Leaves(waiting, chunk);
      assert far[i].written[..from] + chunk.data == far[i].written[..from + count];
      forall k | 0 <= k < |fds|
        ensures Faithful(fds[k], far[k], received, clean)
      {
        StreamMore(was, chunk, fds[k].number);
      }
    }

    // child_fd_poll_cb.  A hangup ends only what is not watched for reading:
    // there may still be something to read.
    method PollCb(i: nat, readable: bool, writable: bool, hangup: bool, n: nat, readFails: bool)
      requires Valid() && i < |fds| && fds[i].pollStarted && !done
      requires (readable ==> fds[i].watchRead) && (writable ==> fds[i].watchWrite)
      modifies this`fds, this`log, this`far, this`received, this`waiting, this`clean
      ensures Valid() && |fds| == old(|fds|)
      ensures forall k | 0 <= k < |fds| && k != i :: fds[k] == old(fds)[k] && far[k] == old(far)[k]
      ensures fds[i].number == old(fds)[i].number && fds[i].kind == old(fds)[i].kind
      ensures far[i].written == old(far)[i].written && far[i].open == old(far)[i].open
      ensures clean == (old(clean) && !(readable && readFails))
      ensures Progressed(old(far)[i], far[i], old(received), received, fds[i].number)
      ensures far[i].taken - old(far)[i].taken == if readable && !readFails then ReadCount(n, old(far)[i]) else 0
      // The pipe is closed exactly by a read that fails or finds the end of the
      // stream; or, if nothing was read, by a hangup, unless the pipe was watched
      // for reading and not reported as writable.
      ensures !fds[i].pipe <==>
        if readable then readFails || AtEnd(old(far)[i]) else hangup && (writable || !old(fds)[i].watchRead)
    {
      hide Keeps, SaidAll, LinesIn, Finishes, Leaves;
      if readable || writable {
        CallBack(Io(fds[i].number));
        UiIo(i, readable, n, readFails);
      }
      if fds[i].pipe && hangup && !fds[i].watchRead {
        Close(i);
      }
    }

    // child_fd_poll_cb with an error: the descriptor is given up.
    method PollFails(i: nat)
      requires Valid() && i < |fds| && fds[i].pollStarted && !done
      modifies this`fds, this`log, this`clean
      ensures Valid() && |fds| == old(|fds|) && !clean && !fds[i].pipe && fds[i].closing
      ensures forall k | 0 <= k < |fds| :: fds[k].kind == old(fds)[k].kind && fds[k].number == old(fds)[k].number
    {
      clean := false;
      Close(i);
    }

    // child_fd_poll_closed_cb
    method PollClosedCb(i: nat)
      requires Valid() && i < |fds| && fds[i].closing && !done
      modifies this`fds, this`handles
      ensures Valid() && |fds| == old(|fds|) && fds == old(fds)[i := old(fds)[i].(closing := false)]
      ensures handles == old(handles) - 1
    {
      var fd := fds[i].(closing := false);
      LiveUpdate(fds, i, fd);
      fds := fds[i := fd];
      handles := handles - 1;
    }

    // child_exit_cb
    method ExitCb(exitStatus: int, termSignal: int)
      requires Valid() && !exited
      modifies this`exited, this`status
      ensures Valid() && exited && (old(handles) > 0 ==> !Due())
      ensures termSignal != 0 ==> status == Killed(termSignal)
      ensures termSignal == 0 ==>
        status.Exited? && -0x8000_0000 <= status.value < 0x8000_0000 && (status.value - exitStatus) % 0x1_0000_0000 == 0
    {
      hide AsInt32, Keeps, SaidAll, LinesIn, Live, FdOk, Faithful, Numbered;
      AsInt32Is(exitStatus);
      exited := true;
      if termSignal != 0 {
        status := Killed(termSignal);
      } else {
        status := Exited(AsInt32(exitStatus));
      }
    }

    // Does the job count as failed?
    predicate Failed()
      reads this`status
    {
      status != Exited(0)
    }

    // child_process_closed_cb
    method ProcessClosedCb()
      requires Valid() && exited && processLive && !done
      modifies this`handles, this`processLive
      ensures Valid() && !processLive && handles == old(handles) - 1
    {
      handles, processLive := handles - 1, false;
    }

    // The guard of child_check_done.
    predicate Due()
      reads this
    {
      !done && exited && handles == 0
    }

    // The part of child_check_done that concerns the child alone: what waits of
    // an unfinished line is told, and then the end.
    method EmitDone()
      requires Valid() && Due()
      modifies this`done, this`log
      ensures Valid() && done && log == old(log) + AsLines(Flushes(waiting)) + [Done]
    {
      hide Keeps, SaidAll, LinesIn, Flushes;
      KeepsToTheEnd(LinesIn(log), waiting, received);
      MoreLines(log, Flushes(waiting));
      OtherCallback(log + AsLines(Flushes(waiting)), Done);
      done := true;
      log := log + AsLines(Flushes(waiting)) + [Done];
    }

    // ---- what follows ----

    // Does libuv still have something to wait for here?
    ghost predicate Active()
      reads this
    {
      processLive || exists i :: 0 <= i < |fds| && (fds[i].closing || fds[i].pollStarted)
    }

    // When a child is done, its process is reaped and every pipe is closed, so
    // that nothing can call back any more; and it was told so just once, last.
    lemma AfterDone()
      requires Valid() && done
      ensures !Active() && forall i | 0 <= i < |fds| :: !fds[i].pipe && !fds[i].closing
      ensures log[|log| - 1] == Done && forall k | 0 <= k < |log| - 1 :: log[k] != Done
    {
      LiveNone(fds);
    }

    // Without poll or read errors, what was delivered is all that was ever
    // written, in order.
    lemma NoOutputLost(i: nat)
      requires Valid() && done && clean && i < |fds| && Captured(fds[i].kind)
      ensures Stream(received, fds[i].number) == far[i].written && !far[i].open
    {
      AfterDone();
      assert far[i].written[..|far[i].written|] == far[i].written;
    }

    // And the lines told, all before the end, are the lines that were written.
    lemma LinesTold(i: nat)
      requires Valid() && done && clean && i < |fds| && Captured(fds[i].kind)
      requires FIRST_CAPTURED <= fds[i].number < FIRST_CAPTURED + N_CAPTURED
      ensures Of(LinesIn(log), fds[i].number) == LinesOf(far[i].written)
    {
      NoOutputLost(i);
    }

    // A child that is not due has something left to wait for, as long as its
    // pipes are captured ones.
    lemma NotDueIsActive()
      requires Valid() && !done && !Due() && forall i | 0 <= i < |fds| :: fds[i].kind.Pipe? ==> Captured(fds[i].kind)
      ensures Active()
    {
      LiveNone(fds);
    }
  }

  // A pipe that the child both reads and writes: it writes a byte and hangs up,
  // and with the pipe reported as writable the byte is lost.
  method UnreadIsLost() returns (child: Child)
    ensures child.Valid() && |child.fds| == 1 == |child.far| && child.received == [] && child.clean
    ensures child.fds[0].kind == Pipe(true, true) && !child.fds[0].pipe && child.far[0].written == [7] && child.far[0].taken == 0
  {
    hide Keeps, SaidAll, LinesIn;
    child := new Child(0, [Pipe(true, true)], 0);
    child.Write(0, [7]);
    child.CloseWriters(0);
    child.PollCb(0, false, true, true, 0, false);
  }
}
