// The tables of running and finished jobs of src/yc-ui.c.  A job is known by
// its index, which no other job has.
module JobTable {

  // What the interface and the recorders are told.
  datatype Event = Started(job: nat) | Ended(job: nat) | Destroyed(job: nat)

  // ---- sequences without repetition ----

  ghost predicate Distinct(s: seq<nat>) {
    forall i, j | 0 <= i < j < |s| :: s[i] != s[j]
  }

  predicate Increasing(s: seq<nat>) {
    forall i, j | 0 <= i < j < |s| :: s[i] < s[j]
  }

  // Without the first occurrence of x.
  function Without(s: seq<nat>, x: nat): seq<nat> {
    if s == [] then [] else if s[0] == x then s[1..] else [s[0]] + Without(s[1..], x)
  }

  lemma {:induction false} WithoutAt(s: seq<nat>, i: nat, x: nat)
    requires i < |s| && s[i] == x && x !in s[..i]
    ensures Without(s, x) == s[..i] + s[i + 1..]
  {
    if i > 0 {
      assert s[1..][..i - 1] == s[..i][1..];
      WithoutAt(s[1..], i - 1, x);
      assert s[..i] == [s[0]] + s[1..][..i - 1];
    }
  }

  lemma {:induction false} WithoutNone(s: seq<nat>, x: nat)
    requires x !in s
    ensures Without(s, x) == s
  {
    if s != [] {
      WithoutNone(s[1..], x);
    }
  }

  lemma {:induction false} WithoutCounts(s: seq<nat>, x: nat)
    requires x in s
    ensures |Without(s, x)| == |s| - 1 && multiset(Without(s, x)) == multiset(s) - multiset{x}
  {
    assert s == [s[0]] + s[1..];
    if s[0] != x {
      WithoutCounts(s[1..], x);
    }
  }

  lemma {:induction false} WithoutIncreasing(s: seq<nat>, x: nat)
    requires Increasing(s)
    ensures Increasing(Without(s, x)) && forall y: nat :: y in Without(s, x) <==> y in s && y != x
  {
    if s != [] {
      var rest := s[1..];
      assert s == [s[0]] + rest;
      assert forall y | y in rest :: y > s[0];
      WithoutIncreasing(rest, x);
      if s[0] != x {
        var t := Without(rest, x);
        forall i | 0 <= i < |t|
          ensures t[i] > s[0]
        {
          assert t[i] in t;
        }
      }
    }
  }

  // The first n jobs: each runs or has finished, never both, never twice.
  ghost predicate Partition(jobs: seq<nat>, finished: seq<nat>, n: nat) {
    && Increasing(jobs) && Distinct(finished)
    && (forall j: nat :: j in jobs || j in finished <==> j < n)
    && (forall j: nat :: j in jobs ==> j !in finished)
  }

  lemma PartitionStart(jobs: seq<nat>, finished: seq<nat>, n: nat)
    requires Partition(jobs, finished, n)
    ensures Partition(jobs + [n], finished, n + 1)
  {
    var more := jobs + [n];
    forall i | 0 <= i < |jobs|
      ensures jobs[i] < n
    {
      assert jobs[i] in jobs;
    }
    assert forall j: nat :: j in more <==> j in jobs || j == n;
  }

  lemma PartitionFinish(jobs: seq<nat>, finished: seq<nat>, n: nat, job: nat)
    requires Partition(jobs, finished, n) && job in jobs
    ensures Partition(Without(jobs, job), finished + [job], n)
  {
    WithoutIncreasing(jobs, job);
    assert forall j: nat :: j in finished + [job] <==> j in finished || j == job;
    forall i | 0 <= i < |finished|
      ensures finished[i] != job
    {
      assert finished[i] in finished;
    }
  }

  // ---- what the log must look like ----

  ghost function EndedIn(log: seq<Event>): seq<nat> {
    if log == [] then []
    else
      var k := |log| - 1;
      EndedIn(log[..k]) + if log[k].Ended? then [log[k].job] else []
  }

  ghost function DestroyedIn(log: seq<Event>): seq<nat> {
    if log == [] then []
    else
      var k := |log| - 1;
      DestroyedIn(log[..k]) + if log[k].Destroyed? then [log[k].job] else []
  }

  ghost function StartedIn(log: seq<Event>): seq<nat> {
    if log == [] then []
    else
      var k := |log| - 1;
      StartedIn(log[..k]) + if log[k].Started? then [log[k].job] else []
  }

  // No job is destroyed before its end was told, nor ended before its start.
  ghost predicate Orderly(log: seq<Event>) {
    log == [] ||
    var k := |log| - 1;
    && Orderly(log[..k])
    && (log[k].Destroyed? ==> log[k].job in EndedIn(log[..k]))
    && (log[k].Ended? ==> log[k].job in StartedIn(log[..k]))
  }

  lemma LogMore(log: seq<Event>, e: Event)
    ensures EndedIn(log + [e]) == EndedIn(log) + if e.Ended? then [e.job] else []
    ensures DestroyedIn(log + [e]) == DestroyedIn(log) + if e.Destroyed? then [e.job] else []
    ensures StartedIn(log + [e]) == StartedIn(log) + if e.Started? then [e.job] else []
    ensures Orderly(log + [e])
         == (Orderly(log) && (e.Destroyed? ==> e.job in EndedIn(log)) && (e.Ended? ==> e.job in StartedIn(log)))
  {
    assert (log + [e])[..|log|] == log;
  }

  // The log tells of every start and every end.
  ghost predicate Logged(log: seq<Event>, finished: seq<nat>, n: nat) {
    Orderly(log) && EndedIn(log) == finished && StartedIn(log) == UpTo(n)
  }

  // A finished job is kept or gone, just once.
  ghost predicate Kept(gone: seq<nat>, ended: seq<nat>, finished: seq<nat>) {
    multiset(gone) + multiset(ended) == multiset(finished)
  }

  lemma LogStart(log: seq<Event>, finished: seq<nat>, n: nat)
    requires Logged(log, finished, n)
    ensures Logged(log + [Started(n)], finished, n + 1) && DestroyedIn(log + [Started(n)]) == DestroyedIn(log)
  {
    LogMore(log, Started(n));
  }

  lemma LogEnd(log: seq<Event>, finished: seq<nat>, n: nat, job: nat)
    requires Logged(log, finished, n) && job < n
    ensures Logged(log + [Ended(job)], finished + [job], n) && DestroyedIn(log + [Ended(job)]) == DestroyedIn(log)
  {
    LogMore(log, Ended(job));
    InUpTo(n, job);
  }

  lemma LogDestroy(log: seq<Event>, finished: seq<nat>, n: nat, job: nat)
    requires Logged(log, finished, n) && job in finished
    ensures Logged(log + [Destroyed(job)], finished, n)
    ensures DestroyedIn(log + [Destroyed(job)]) == DestroyedIn(log) + [job]
  {
    LogMore(log, Destroyed(job));
  }

  lemma KeptHaveEnded(gone: seq<nat>, ended: seq<nat>, finished: seq<nat>)
    requires Kept(gone, ended, finished)
    ensures forall i | 0 <= i < |ended| :: ended[i] in finished
  {
    forall i | 0 <= i < |ended|
      ensures ended[i] in finished
    {
      assert ended[i] in multiset(gone) + multiset(ended);
    }
  }

  lemma KeptMore(gone: seq<nat>, ended: seq<nat>, finished: seq<nat>, job: nat)
    requires Kept(gone, ended, finished)
    ensures Kept(gone, ended + [job], finished + [job]) && Kept(gone + [job], ended, finished + [job])
  {
  }

  lemma KeptLess(gone: seq<nat>, ended: seq<nat>, finished: seq<nat>, k: nat)
    requires Kept(gone, ended, finished) && k <= |ended|
    ensures Kept(gone + ended[..k], ended[k..], finished) && gone + ended[..k] + ended[k..] == gone + ended
  {
    assert ended == ended[..k] + ended[k..];
    assert multiset(ended) == multiset(ended[..k]) + multiset(ended[k..]);
    assert multiset(gone + ended[..k]) == multiset(gone) + multiset(ended[..k]);
  }

  ghost function Count(s: seq<bool>): nat {
    if s == [] then 0 else Count(s[..|s| - 1]) + if s[|s| - 1] then 1 else 0
  }

  lemma {:induction false} CountIs(s: seq<bool>)
    ensures Count(s) == |set i | 0 <= i < |s| && s[i]|
  {
    var all := set i | 0 <= i < |s| && s[i];
    if s != [] {
      var k := |s| - 1;
      CountIs(s[..k]);
      var before := set i | 0 <= i < k && s[..k][i];
      assert before == set i | 0 <= i < k && s[i];
      assert all == before + if s[k] then {k} else {};
    }
  }

  // 0, 1, ... below n.
  ghost function UpTo(n: nat): seq<nat> {
    if n == 0 then [] else UpTo(n - 1) + [n - 1]
  }

  lemma {:induction false} InUpTo(n: nat, j: nat)
    requires j < n
    ensures j in UpTo(n)
  {
    if j < n - 1 {
      InUpTo(n - 1, j);
    }
  }

  function Min(a: nat, b: nat): nat {
    if a < b then a else b
  }

  class Ui {
    var jobs: seq<nat>
    var ended: seq<nat>
    var maxEnded: nat
    var nStarted: nat
    var nEnded: nat
    var nFailed: nat
    var log: seq<Event>
    ghost var finished: seq<nat>
    ghost var failures: seq<bool>
    ghost var steady: bool

    // Every job that was started runs or has finished, and every one that has
    // finished is kept or has been destroyed; none is twice anywhere.
    ghost predicate Valid()
      reads this
    {
      && nStarted == nEnded + |jobs| && nEnded == |finished| == |failures| && nFailed == Count(failures)
      && Partition(jobs, finished, nStarted)
      && Logged(log, finished, nStarted)
      && Kept(DestroyedIn(log), ended, finished)
      && (steady ==> DestroyedIn(log) + ended == finished && |ended| == Min(nEnded, maxEnded))
    }

    constructor (maxEnded: nat)
      ensures Valid() && nStarted == 0 && steady && this.maxEnded == maxEnded
      ensures jobs == [] && ended == [] && finished == [] && failures == [] && log == []
    {
      jobs, ended, this.maxEnded := [], [], maxEnded;
      nStarted, nEnded, nFailed, log := 0, 0, 0, [];
      finished, failures, steady := [], [], true;
    }

    // yc_ui_spawn, once the child exists (or does not).
    method Spawn(created: bool) returns (job: nat)
      requires Valid()
      modifies this`jobs, this`nStarted, this`log
      ensures Valid() && job == old(nStarted)
      ensures if created then jobs == old(jobs) + [job] && nStarted == job + 1 && log == old(log) + [Started(job)]
              else jobs == old(jobs) && nStarted == job && log == old(log)
    {
      hide Partition, Logged, DestroyedIn, Kept, Count, Min;
      job := nStarted;
      if created {
        PartitionStart(jobs, finished, job);
        LogStart(log, finished, job);
        nStarted := nStarted + 1;
        jobs := jobs + [job];
        log := log + [Started(job)];
      }
    }

    // What finishing a job leaves in the table of running ones.
    static lemma OthersStay(jobs: seq<nat>, job: nat)
      requires Increasing(jobs) && job in jobs
      ensures |Without(jobs, job)| == |jobs| - 1 && forall j | j in jobs && j != job :: j in Without(jobs, job)
    {
      WithoutCounts(jobs, job);
      WithoutIncreasing(jobs, job);
    }

    lemma JobsIncrease()
      requires Valid()
      ensures Increasing(jobs)
    {
    }

    lemma RunningAreStarted()
      requires Valid()
      ensures forall job | job in jobs :: job < nStarted
    {
    }

    // jobs_remove, and ended_jobs_remove.
    static method Remove(s: seq<nat>, job: nat) returns (rest: seq<nat>, found: bool)
      ensures rest == Without(s, job) && (found <==> job in s)
    {
      for i := 0 to |s|
        invariant job !in s[..i]
      {
        if s[i] == job {
          WithoutAt(s, i, job);
          return s[..i] + s[i + 1..], true;
        }
        assert s[..i + 1] == s[..i] + [s[i]];
      }
      assert s[..|s|] == s;
      WithoutNone(s, job);
      rest, found := s, false;
    }

    // ended_jobs_trim: the oldest go until the cap is met.
    method Trim(ghost ends: seq<nat>)
      requires Logged(log, ends, nStarted)
      requires forall i | 0 <= i < |ended| - maxEnded :: ended[i] in ends
      modifies this`ended, this`log
      ensures Logged(log, ends, nStarted)
      ensures var n := |old(ended)|; var k := if n > maxEnded then n - maxEnded else 0;
        ended == old(ended)[k..] && DestroyedIn(log) == DestroyedIn(old(log)) + old(ended)[..k]
    {
      hide Logged, DestroyedIn;
      ghost var k := 0;
      assert ended[0..] == ended;
      while |ended| > maxEnded
        invariant 0 <= k <= old(|ended|) && ended == old(ended)[k..]
        invariant k > 0 ==> k + maxEnded <= old(|ended|)
        invariant DestroyedIn(log) == DestroyedIn(old(log)) + old(ended)[..k] && Logged(log, ends, nStarted)
        decreases |ended|
      {
        var oldest := ended[0];
        WithoutAt(ended, 0, oldest);
        var found;
        ended, found := Remove(ended, oldest);
        LogDestroy(log, ends, nStarted, oldest);
        log := log + [Destroyed(oldest)];
        assert old(ended)[..k + 1] == old(ended)[..k] + [oldest];
        k := k + 1;
      }
    }

    // ui_child_done: the job moves from the running ones to the finished ones
    // before the interface is told; without a cap it goes at once.
    method Finish(job: nat, failed: bool)
      requires Valid() && job in jobs
      modifies this`jobs, this`ended, this`nEnded, this`nFailed, this`log, this`finished, this`failures
      ensures Valid() && finished == old(finished) + [job] && jobs == Without(old(jobs), job)
      ensures nEnded == old(nEnded) + 1 && nFailed == old(nFailed) + if failed then 1 else 0
      ensures failures == old(failures) + [failed]
      ensures maxEnded == 0 ==> ended == old(ended)
      ensures maxEnded > 0 ==>
        var all := old(ended) + [job]; ended == all[if |all| > maxEnded then |all| - maxEnded else 0..]
    {
      hide Partition, Logged, DestroyedIn, Kept, Increasing, Count;
      PartitionFinish(jobs, finished, nStarted, job);
      OfRunning(job);
      WithoutCounts(jobs, job);
      ghost var gone, kept := DestroyedIn(log), ended;
      Tally(failed);
      var found;
      jobs, found := Remove(jobs, job);
      Shelve(job);
      if steady {
        SteadyMore(gone, kept, finished, DestroyedIn(log), ended, job, maxEnded);
      }
      finished := finished + [job];
    }

    static lemma SteadyMore(gone: seq<nat>, kept: seq<nat>, finished: seq<nat>, gone': seq<nat>, kept': seq<nat>, job: nat, max: nat)
      requires gone + kept == finished && |kept| == Min(|finished|, max)
      requires kept' == if max == 0 then kept else LastFew(kept + [job], max)
      requires max > 0 || kept == [] ==> gone' + kept' == gone + kept + [job]
      ensures gone' + kept' == finished + [job] && |kept'| == Min(|finished| + 1, max)
    {
    }

    method Tally(failed: bool)
      requires nEnded == |failures| && nFailed == Count(failures)
      modifies this`nEnded, this`nFailed, this`failures
      ensures nEnded == |failures| && nFailed == Count(failures) && failures == old(failures) + [failed]
      ensures nFailed == old(nFailed) + if failed then 1 else 0
    {
      nEnded := nEnded + 1;
      if failed {
        nFailed := nFailed + 1;
      }
      failures := failures + [failed];
      assert failures[..|failures| - 1] == old(failures);
    }

    lemma OfRunning(job: nat)
      requires Partition(jobs, finished, nStarted) && job in jobs
      ensures job < nStarted
    {
    }

    // The middle of ui_child_done: keeping the job, or not, and telling of its end.
    method Shelve(job: nat)
      requires job < nStarted && Logged(log, finished, nStarted) && Kept(DestroyedIn(log), ended, finished)
      modifies this`ended, this`log
      ensures Logged(log, finished + [job], nStarted) && Kept(DestroyedIn(log), ended, finished + [job])
      ensures ended == if maxEnded == 0 then old(ended) else LastFew(old(ended) + [job], maxEnded)
      ensures maxEnded > 0 || old(ended) == [] ==>
        DestroyedIn(log) + ended == DestroyedIn(old(log)) + old(ended) + [job]
    {
      hide Logged, DestroyedIn, Kept;
      ghost var gone, kept := DestroyedIn(log), ended + [job];
      KeptHaveEnded(gone, ended, finished);
      KeptMore(gone, ended, finished, job);
      if maxEnded > 0 {
        ended := ended + [job];
        Trim(finished);
        ghost var k := if |kept| > maxEnded then |kept| - maxEnded else 0;
        KeptLess(gone, kept, finished + [job], k);
        assert gone + kept == gone + old(ended) + [job];
      }
      LogEnd(log, finished, nStarted, job);
      log := log + [Ended(job)];
      if maxEnded == 0 {
        LogDestroy(log, finished + [job], nStarted, job);
        log := log + [Destroyed(job)];
      }
    }

    // yc_ui_reap_job: only a finished job that is kept can be reaped; anything
    // else is fatal.
    method Reap(job: nat) returns (ok: bool)
      requires Valid()
      modifies this`ended, this`log, this`steady
      ensures Valid() && (ok <==> job in old(ended))
      ensures ended == Without(old(ended), job)
      ensures log == if ok then old(log) + [Destroyed(job)] else old(log)
    {
      hide Partition, Logged, DestroyedIn, Count;
      KeptHaveEnded(DestroyedIn(log), ended, finished);
      ended, ok := Remove(ended, job);
      if !ok {
        WithoutNone(old(ended), job);
        return;
      }
      WithoutCounts(old(ended), job);
      LogDestroy(log, finished, nStarted, job);
      assert Kept(DestroyedIn(log) + [job], ended, finished) by {
        assert multiset(old(ended)) == multiset(ended) + multiset{job};
      }
      log := log + [Destroyed(job)];
      steady := false;
    }

    // The cap is public.
    method SetCap(cap: nat)
      requires Valid()
      modifies this`maxEnded, this`steady
      ensures Valid() && maxEnded == cap
    {
      maxEnded, steady := cap, false;
    }

    // yc_ui_free: what is kept goes too, and so every finished job has been
    // destroyed exactly once.
    method Free()
      requires Valid()
      modifies this`maxEnded, this`ended, this`log, this`steady
      ensures Valid() && ended == []
      ensures multiset(DestroyedIn(log)) == multiset(finished) && Distinct(DestroyedIn(log))
    {
      hide Partition, Logged, DestroyedIn, Count;
      ghost var gone, kept := DestroyedIn(log), ended;
      KeptHaveEnded(gone, ended, finished);
      KeptLess(gone, ended, finished, |ended|);
      maxEnded, steady := 0, false;
      Trim(finished);
      OneFinish(finished);
      SameOnce(DestroyedIn(log), finished);
    }

    lemma OneFinish(finished: seq<nat>)
      requires Partition(jobs, finished, nStarted)
      ensures Distinct(finished)
    {
    }
  }

  // The last n of a sequence, or all of it.
  ghost function LastFew(s: seq<nat>, n: nat): seq<nat> {
    s[|s| - Min(|s|, n)..]
  }

  // A rearrangement repeats nothing either.
  lemma SameOnce(a: seq<nat>, b: seq<nat>)
    requires multiset(a) == multiset(b) && Distinct(b)
    ensures Distinct(a)
  {
    forall i, j | 0 <= i < j < |a|
      ensures a[i] != a[j]
    {
      if a[i] == a[j] {
        assert a == a[..i] + [a[i]] + a[i + 1..j] + [a[j]] + a[j + 1..];
        assert multiset(a)[a[i]] >= 2;
        OnceEach(b, a[i]);
      }
    }
  }

  lemma {:induction false} OnceEach(s: seq<nat>, x: nat)
    requires Distinct(s)
    ensures multiset(s)[x] <= 1
  {
    if s != [] {
      assert s == [s[0]] + s[1..];
      OnceEach(s[1..], x);
      if s[0] == x {
        assert x !in s[1..];
      }
    }
  }

  // ---- runs ----

  datatype Call = Spawn(created: bool) | Finish(job: nat, failed: bool) | Reap(job: nat) | SetCap(cap: nat)

  predicate Plain(call: Call) {
    !call.Reap? && !call.SetCap?
  }

  // A finish is of a running job.
  method Do(ui: Ui, call: Call)
    requires ui.Valid()
    modifies ui
    ensures ui.Valid() && (old(ui.steady) && Plain(call) ==> ui.steady && ui.maxEnded == old(ui.maxEnded))
  {
    hide Ui.Valid, LastFew, Without;
    match call
    case Spawn(created) => var _ := ui.Spawn(created);
    case Finish(job, failed) => if job in ui.jobs { ui.Finish(job, failed); }
    case Reap(job) => var _ := ui.Reap(job);
    case SetCap(cap) => ui.SetCap(cap);
  }

  // Any calls in any order.
  method Run(ui: Ui, calls: seq<Call>)
    requires ui.Valid()
    modifies ui
    ensures ui.Valid()
    ensures old(ui.steady) && (forall k | 0 <= k < |calls| :: Plain(calls[k])) ==>
      ui.steady && ui.maxEnded == old(ui.maxEnded)
      && ui.ended == ui.finished[if |ui.finished| > ui.maxEnded then |ui.finished| - ui.maxEnded else 0..]
  {
    hide Ui.Valid, LastFew, Plain;
    for k := 0 to |calls|
      invariant ui.Valid()
      invariant old(ui.steady) && (forall i | 0 <= i < k :: Plain(calls[i])) ==>
        ui.steady && ui.maxEnded == old(ui.maxEnded)
    {
      Do(ui, calls[k]);
    }
    KeptAreLast(ui);
  }

  // With a fixed cap and no reaping, the jobs kept are the last to finish.
  lemma KeptAreLast(ui: Ui)
    requires ui.Valid()
    ensures ui.steady ==> ui.ended == ui.finished[if |ui.finished| > ui.maxEnded then |ui.finished| - ui.maxEnded else 0..]
  {
  }
}
