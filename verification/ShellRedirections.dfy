// Redirections: src/yc-shell.c keeps only the last one of each descriptor and
// src/yc-child.c resolves the duplications.  What they give the child is
// compared with carrying the redirections out one by one, from left to right
// (section 2.7 of POSIX.1-2017 XCU).
module ShellRedirections {
  import opened Basics
  import opened ShellSyntax

  datatype Redirect =
    | File(fd: nat, input: bool, append: bool, name: string)
    | Dup(fd: nat, input: bool, target: nat)

  // '1>&1' asks for nothing.
  predicate Effective(r: Redirect) {
    !(r.Dup? && r.target == r.fd)
  }

  // ---- the meaning: one redirection after another ----

  // What a descriptor of the child refers to.  Opened(k, ...) is the open file
  // description made by the k-th redirection; two descriptors with the same
  // one share its offset.
  datatype Destination = Closed | Base(fd: nat) | Opened(order: nat, input: bool, append: bool, name: string)

  ghost function Initially(fd: nat): Destination {
    if fd < 3 then Base(fd) else Closed
  }

  ghost function InTurn(rs: seq<Redirect>, fd: nat): Destination {
    if rs == [] then Initially(fd)
    else
      var k := |rs| - 1;
      var r := rs[k];
      if r.fd != fd then InTurn(rs[..k], fd)
      else if r.File? then Opened(k + 1, r.input, r.append, r.name)
      else InTurn(rs[..k], r.target)
  }

  // ---- the map of descriptors ----

  datatype Slot = Slot(what: Redirect, order: nat)

  function Find(slots: seq<Slot>, fd: int): (at: Option<nat>)
    ensures at.Some? ==> at.value < |slots| && slots[at.value].what.fd == fd
    ensures at.Some? ==> forall i | 0 <= i < at.value :: slots[i].what.fd != fd
    ensures at.None? ==> forall i | 0 <= i < |slots| :: slots[i].what.fd != fd
  {
    if slots == [] then None
    else if slots[0].what.fd == fd then Some(0)
    else
      match Find(slots[1..], fd)
      case None => None
      case Some(i) => Some(i + 1)
  }

  ghost function Put(slots: seq<Slot>, slot: Slot): seq<Slot> {
    match Find(slots, slot.what.fd)
    case Some(i) => slots[i := slot]
    case None => slots + [slot]
  }

  // The map after a list of redirections.
  ghost function SlotsOf(rs: seq<Redirect>): seq<Slot> {
    if rs == [] then []
    else
      var k := |rs| - 1;
      var before := SlotsOf(rs[..k]);
      if Effective(rs[k]) then Put(before, Slot(rs[k], k + 1)) else before
  }

  class FdMap {
    var slots: seq<Slot>

    constructor ()
      ensures slots == []
    {
      slots := [];
    }

    // fdmap_get
    method Get(fd: int) returns (at: Option<nat>)
      ensures at == Find(slots, fd)
    {
      for i := 0 to |slots|
        invariant forall j | 0 <= j < i :: slots[j].what.fd != fd
      {
        if slots[i].what.fd == fd {
          return Some(i);
        }
      }
      at := None;
    }

    // fdmap_set, with what its callers then store.
    method Set(what: Redirect, order: nat)
      modifies this
      ensures slots == Put(old(slots), Slot(what, order))
    {
      var at := Get(what.fd);
      match at
      case Some(i) => slots := slots[i := Slot(what, order)];
      case None => slots := slots + [Slot(what, order)];
    }

    // check_dup_order: may each duplication wait until everything is settled?
    method CheckDupOrder() returns (ok: bool)
      ensures ok <==> DupOrderOk(slots)
    {
      for i := 0 to |slots|
        invariant forall k | 0 <= k < i :: OrderOk(slots, slots[k])
      {
        var slot := slots[i];
        if slot.what.File? {
          continue;
        }
        var src := Get(slot.what.target);
        if src.Some? && slots[src.value].order > slot.order {
          assert !OrderOk(slots, slots[i]);
          return false;
        }
      }
      ok := true;
    }
  }

  ghost predicate OrderOk(slots: seq<Slot>, slot: Slot) {
    slot.what.Dup? ==>
      var src := Find(slots, slot.what.target);
      src.Some? ==> slots[src.value].order <= slot.order
  }

  ghost predicate DupOrderOk(slots: seq<Slot>) {
    forall i | 0 <= i < |slots| :: OrderOk(slots, slots[i])
  }

  // The last effective redirection of a descriptor.
  ghost function LastOn(rs: seq<Redirect>, fd: int): (k: Option<nat>)
    ensures k.Some? ==> k.value < |rs| && rs[k.value].fd == fd && Effective(rs[k.value])
  {
    if rs == [] then None
    else
      var k := |rs| - 1;
      if rs[k].fd == fd && Effective(rs[k]) then Some(k) else LastOn(rs[..k], fd)
  }

  // The map holds just the last effective redirection of each descriptor.
  lemma {:induction false} LastWins(rs: seq<Redirect>, fd: int)
    ensures var slots, at, last := SlotsOf(rs), Find(SlotsOf(rs), fd), LastOn(rs, fd);
      && (at.Some? <==> last.Some?)
      && (at.Some? ==> slots[at.value] == Slot(rs[last.value], last.value + 1))
  {
    if rs != [] {
      var k := |rs| - 1;
      LastWins(rs[..k], fd);
      var before := SlotsOf(rs[..k]);
      if Effective(rs[k]) {
        PutFinds(before, Slot(rs[k], k + 1), fd);
      }
    }
  }

  lemma PutFinds(slots: seq<Slot>, slot: Slot, fd: int)
    ensures var at := Find(Put(slots, slot), fd);
      if fd == slot.what.fd then at.Some? && Put(slots, slot)[at.value] == slot
      else at == Find(slots, fd) && (at.Some? ==> Put(slots, slot)[at.value] == slots[at.value])
  {
    var after := Put(slots, slot);
    var at, was := Find(after, fd), Find(slots, fd);
    if fd == slot.what.fd {
      var i := if was.Some? then was.value else |slots|;
      assert after[i] == slot;
    } else {
      if was.Some? { assert after[was.value] == slots[was.value]; }
      if at.Some? { assert after[at.value] == slots[at.value]; }
    }
  }

  lemma PutKeepsOne(slots: seq<Slot>, slot: Slot)
    requires OnePer(slots)
    ensures OnePer(Put(slots, slot))
  {
    var at := Find(slots, slot.what.fd);
    if at.Some? {
      assert forall i | 0 <= i < |slots| :: slots[at.value := slot][i].what.fd == slots[i].what.fd;
    }
  }

  predicate OnePer(slots: seq<Slot>) {
    forall i, j | 0 <= i < j < |slots| :: slots[i].what.fd != slots[j].what.fd
  }

  lemma {:induction false} OnePerDescriptor(rs: seq<Redirect>)
    ensures OnePer(SlotsOf(rs))
  {
    if rs != [] {
      var k := |rs| - 1;
      OnePerDescriptor(rs[..k]);
      PutKeepsOne(SlotsOf(rs[..k]), Slot(rs[k], k + 1));
    }
  }

  // ---- both meanings, step by step ----

  // What the redirections in turn make of fd is settled by the last one ...
  lemma {:induction false} InTurnIsLast(rs: seq<Redirect>, fd: nat)
    ensures InTurn(rs, fd) ==
      match LastOn(rs, fd)
      case None => Initially(fd)
      case Some(k) =>
        if rs[k].File? then Opened(k + 1, rs[k].input, rs[k].append, rs[k].name) else InTurn(rs[..k], rs[k].target)
  {
    if rs != [] {
      var k := |rs| - 1;
      InTurnIsLast(rs[..k], fd);
      var last := LastOn(rs[..k], fd);
      if last.Some? {
        assert rs[..k][..last.value] == rs[..last.value];
      }
    }
  }

  // ... and what comes before it and after all others does not matter.
  lemma {:induction false} InTurnSettled(rs: seq<Redirect>, k: nat, fd: nat)
    requires k <= |rs| && (LastOn(rs, fd).Some? ==> LastOn(rs, fd).value < k)
    ensures InTurn(rs[..k], fd) == InTurn(rs, fd)
    decreases |rs|
  {
    if k == |rs| {
      assert rs[..k] == rs;
    } else {
      var n := |rs| - 1;
      assert rs[..n][..k] == rs[..k];
      InTurnSettled(rs[..n], k, fd);
    }
  }

  // A duplication whose source was redirected earlier is equal to its source
  // in the end too, and the source comes strictly earlier.
  lemma DupMeansTarget(rs: seq<Redirect>, fd: nat)
    requires DupOrderOk(SlotsOf(rs)) && LastOn(rs, fd).Some? && rs[LastOn(rs, fd).value].Dup?
    ensures var k := LastOn(rs, fd).value; var last := LastOn(rs, rs[k].target);
      InTurn(rs, fd) == InTurn(rs, rs[k].target) && (last.Some? ==> last.value < k)
  {
    var k := LastOn(rs, fd).value;
    var target := rs[k].target;
    LastWins(rs, fd);
    LastWins(rs, target);
    var slots := SlotsOf(rs);
    assert OrderOk(slots, slots[Find(slots, fd).value]);
    InTurnIsLast(rs, fd);
    InTurnSettled(rs, k, target);
  }

  // The check, on the redirections: the last one of a descriptor, if it is a
  // duplication, comes after the last one of its source.
  lemma AcceptedOrder(rs: seq<Redirect>)
    ensures DupOrderOk(SlotsOf(rs)) <==>
      forall fd: int :: LastOn(rs, fd).Some? && rs[LastOn(rs, fd).value].Dup? ==>
        var source := LastOn(rs, rs[LastOn(rs, fd).value].target);
        source.None? || source.value < LastOn(rs, fd).value
  {
    hide SlotsOf, LastOn;
    var slots := SlotsOf(rs);
    if DupOrderOk(slots) {
      forall fd: int | LastOn(rs, fd).Some? && rs[LastOn(rs, fd).value].Dup?
        ensures var source := LastOn(rs, rs[LastOn(rs, fd).value].target); source.None? || source.value < LastOn(rs, fd).value
      {
        DupMeansTarget(rs, rs[LastOn(rs, fd).value].fd);
      }
    } else {
      var i :| 0 <= i < |slots| && !OrderOk(slots, slots[i]);
      var fd := slots[i].what.fd;
      OnePerDescriptor(rs);
      Places(slots);
      LastWins(rs, fd);
      LastWins(rs, slots[i].what.target);
    }
  }

  // ---- resolving duplications ----

  // One configured descriptor of the child, as resolve_dup_fds sees it.
  datatype Mode = Inherited | Opens(input: bool, append: bool, name: string) | DupOf(target: int)

  datatype FdRecord = FdRecord(fd: nat, mode: Mode)

  datatype ResolveError = NotConfigured(fd: nat, src: int) | Circular(fd: nat)

  function Lookup(fds: seq<FdRecord>, fd: int): (at: Option<nat>)
    ensures at.Some? ==> at.value < |fds| && fds[at.value].fd == fd
    ensures at.None? ==> forall i | 0 <= i < |fds| :: fds[i].fd != fd
  {
    if fds == [] then None
    else if fds[0].fd == fd then Some(0)
    else
      match Lookup(fds[1..], fd)
      case None => None
      case Some(i) => Some(i + 1)
  }

  predicate Distinct(fds: seq<FdRecord>) {
    forall i, j | 0 <= i < j < |fds| :: fds[i].fd != fds[j].fd
  }

  ghost predicate DupAt(fds: seq<FdRecord>, fd: int) {
    Lookup(fds, fd).Some? && fds[Lookup(fds, fd).value].mode.DupOf?
  }

  ghost predicate SettledAt(fds: seq<FdRecord>, fd: int) {
    Lookup(fds, fd).Some? && !fds[Lookup(fds, fd).value].mode.DupOf?
  }

  // Where k hops along duplications lead; the walk stays at anything else.
  ghost function Walk(fds: seq<FdRecord>, fd: int, k: nat): int {
    if k == 0 then fd
    else
      var at := Walk(fds, fd, k - 1);
      if DupAt(fds, at) then fds[Lookup(fds, at).value].mode.target else at
  }

  ghost predicate Grounded(fds: seq<FdRecord>, fd: int) {
    exists k: nat :: SettledAt(fds, Walk(fds, fd, k))
  }

  lemma {:induction false} WalkStays(fds: seq<FdRecord>, fd: int, k: nat, m: nat)
    requires k <= m && !DupAt(fds, Walk(fds, fd, k))
    ensures Walk(fds, fd, m) == Walk(fds, fd, k)
    decreases m - k
  {
    if k < m {
      WalkStays(fds, fd, k, m - 1);
    }
  }

  // Two walks that stop stop at the same place.
  lemma WalksAgree(fds: seq<FdRecord>, fd: int, k: nat, m: nat)
    requires !DupAt(fds, Walk(fds, fd, k)) && !DupAt(fds, Walk(fds, fd, m))
    ensures Walk(fds, fd, m) == Walk(fds, fd, k)
  {
    if k <= m {
      WalkStays(fds, fd, k, m);
    } else {
      WalkStays(fds, fd, m, k);
    }
  }

  lemma {:induction false} WalkRepeats(fds: seq<FdRecord>, fd: int, i: nat, j: nat, k: nat)
    requires Walk(fds, fd, i) == Walk(fds, fd, j)
    ensures Walk(fds, fd, i + k) == Walk(fds, fd, j + k)
  {
    if k > 0 {
      WalkRepeats(fds, fd, i, j, k - 1);
    }
  }

  // More duplications in a row than there are descriptors: it never ends.
  lemma {:induction false} LongWalkIsEndless(fds: seq<FdRecord>, fd: int, k: nat)
    requires forall i: nat | i <= |fds| :: DupAt(fds, Walk(fds, fd, i))
    ensures DupAt(fds, Walk(fds, fd, k))
    decreases k
  {
    hide Walk;
    if k > |fds| {
      var spots := seq(|fds| + 1, i requires 0 <= i <= |fds| => Lookup(fds, Walk(fds, fd, i)).value);
      var i, j := Pigeonhole(spots, |fds|);
      assert fds[spots[i]].fd == Walk(fds, fd, i) && fds[spots[j]].fd == Walk(fds, fd, j);
      WalkRepeats(fds, fd, i, j, k - j);
      LongWalkIsEndless(fds, fd, k - (j - i));
    }
  }

  // More than n numbers below n: two are equal.
  lemma {:induction false} Pigeonhole(s: seq<nat>, n: nat) returns (i: nat, j: nat)
    requires |s| > n && forall k | 0 <= k < |s| :: s[k] < n
    ensures i < j < |s| && s[i] == s[j]
    decreases n
  {
    var last := |s| - 1;
    if k :| 0 <= k < last && s[k] == s[last] {
      i, j := k, last;
    } else {
      // The last is unlike all others: move the greatest value to its place.
      var moved := seq(last, k requires 0 <= k < last => if s[k] == n - 1 then s[last] else s[k]);
      assert forall k | 0 <= k < last :: s[k] == n - 1 ==> s[last] != n - 1;
      i, j := Pigeonhole(moved, n - 1);
    }
  }

  // yc_child_get_fd
  method GetFd(fds: seq<FdRecord>, fd: int) returns (at: Option<nat>)
    requires Distinct(fds)
    ensures at == Lookup(fds, fd)
  {
    for i := 0 to |fds|
      invariant forall j | 0 <= j < i :: fds[j].fd != fd
    {
      if fds[i].fd == fd {
        return Some(i);
      }
    }
    at := None;
  }

  // The inner loop: follow a chain of duplications, but not in circles.
  method FollowDups(fds: seq<FdRecord>, stdioCount: nat, fd: nat, target: int)
      returns (src: int, error: Option<ResolveError>)
    requires Distinct(fds) && forall i | 0 <= i < |fds| :: fds[i].fd < stdioCount
    requires DupAt(fds, fd) && target == Walk(fds, fd, 1)
    ensures error.None? <==> Grounded(fds, fd)
    ensures error.None? ==> SettledAt(fds, src) && src == GroundOf(fds, fd)
    ensures error.Some? ==> Explains(fds, fd, error.value)
  {
    src := target;
    var hops := 0;
    while true
      invariant 0 <= hops <= |fds| + 1 && src == Walk(fds, fd, hops + 1)
      invariant forall k: nat | k <= hops :: DupAt(fds, Walk(fds, fd, k))
      decreases |fds| + 1 - hops
    {
      var at := None;
      if 0 <= src < stdioCount {
        at := GetFd(fds, src);
      }
      if at.None? {
        forall k: nat
          ensures !SettledAt(fds, Walk(fds, fd, k))
        {
          if k > hops { WalkStays(fds, fd, hops + 1, k); }
        }
        return src, Some(NotConfigured(fd, src));
      }
      if !fds[at.value].mode.DupOf? {
        GroundIs(fds, fd, hops + 1);
        return src, None;
      }
      if hops > |fds| {
        forall k: nat
          ensures DupAt(fds, Walk(fds, fd, k))
        {
          LongWalkIsEndless(fds, fd, k);
        }
        return src, Some(Circular(fd));
      }
      src := fds[at.value].mode.target;
      hops := hops + 1;
      assert src == Walk(fds, fd, hops + 1);
    }
  }

  // Where the walk has come to rest, if it ever does.
  ghost function GroundOf(fds: seq<FdRecord>, fd: int): int {
    Walk(fds, fd, |fds|)
  }

  lemma GroundIs(fds: seq<FdRecord>, fd: int, k: nat)
    requires !DupAt(fds, Walk(fds, fd, k))
    ensures GroundOf(fds, fd) == Walk(fds, fd, k)
  {
    if i: nat :| i <= |fds| && !DupAt(fds, Walk(fds, fd, i)) {
      WalkStays(fds, fd, i, |fds|);
      WalksAgree(fds, fd, i, k);
    } else {
      LongWalkIsEndless(fds, fd, k);
    }
  }

  lemma FirstHop(fds: seq<FdRecord>, fd: int)
    requires DupAt(fds, fd)
    ensures Walk(fds, fd, 1) == fds[Lookup(fds, fd).value].mode.target
  {
    assert Walk(fds, fd, 0) == fd;
  }

  // The two ways of never coming to rest.
  ghost predicate Explains(fds: seq<FdRecord>, fd: nat, error: ResolveError) {
    match error
    case NotConfigured(f, src) => f == fd && Lookup(fds, src).None? && exists k :: src == Walk(fds, fd, k)
    case Circular(f) => f == fd && forall k :: DupAt(fds, Walk(fds, fd, k))
  }

  // resolve_dup_fds: each duplication gets what its chain comes to rest at.
  method ResolveDupFds(fds: seq<FdRecord>, stdio: array<Destination>) returns (error: Option<ResolveError>)
    requires Distinct(fds) && forall i | 0 <= i < |fds| :: fds[i].fd < stdio.Length
    modifies stdio
    ensures error.None? <==> AllGrounded(fds)
    ensures error.Some? ==> exists i :: 0 <= i < |fds| && fds[i].mode.DupOf? && Explains(fds, fds[i].fd, error.value)
    ensures error.None? ==> forall i | 0 <= i < |fds| && fds[i].mode.DupOf? ::
      SettledAt(fds, GroundOf(fds, fds[i].fd)) && stdio[fds[i].fd] == old(stdio[GroundOf(fds, fds[i].fd)])
    ensures forall f | 0 <= f < stdio.Length && !DupAt(fds, f) :: stdio[f] == old(stdio[f])
  {
    hide Walk, Grounded, GroundOf, Explains, Lookup;
    for i := 0 to |fds|
      invariant forall j | 0 <= j < i && fds[j].mode.DupOf? ::
        Grounded(fds, fds[j].fd) && SettledAt(fds, GroundOf(fds, fds[j].fd))
        && stdio[fds[j].fd] == old(stdio[GroundOf(fds, fds[j].fd)])
      invariant forall f | 0 <= f < stdio.Length && !DupAt(fds, f) :: stdio[f] == old(stdio[f])
    {
      if !fds[i].mode.DupOf? {
        continue;
      }
      LookupAt(fds, i);
      FirstHop(fds, fds[i].fd);
      var src;
      src, error := FollowDups(fds, stdio.Length, fds[i].fd, fds[i].mode.target);
      if error.Some? {
        return;
      }
      stdio[fds[i].fd] := stdio[src];
    }
    error := None;
  }

  // ---- the child a line describes ----

  // What build_create_info makes of the map: descriptors 0 to 2 always, the
  // others when redirected.
  function ModeFor(what: Redirect): Mode {
    match what
    case File(_, input, append, name) => Opens(input, append, name)
    case Dup(_, _, target) => DupOf(target)
  }

  ghost function ModeOf(slots: seq<Slot>, fd: nat): Mode {
    match Find(slots, fd)
    case None => Inherited
    case Some(i) => ModeFor(slots[i].what)
  }

  ghost predicate Describes(fds: seq<FdRecord>, slots: seq<Slot>) {
    && Distinct(fds)
    && (forall i | 0 <= i < |fds| :: fds[i].mode == ModeOf(slots, fds[i].fd))
    && (forall fd: nat :: Lookup(fds, fd).Some? <==> fd < 3 || Find(slots, fd).Some?)
  }

  // The first loop of build_create_info: descriptors 0 to 2 ...
  method StdInfos(slots: seq<Slot>) returns (fds: seq<FdRecord>)
    requires OnePer(slots)
    ensures |fds| == 3 && forall k | 0 <= k < 3 :: fds[k] == FdRecord(k, ModeOf(slots, k))
  {
    fds := [FdRecord(0, Inherited), FdRecord(1, Inherited), FdRecord(2, Inherited)];
    for i := 0 to |slots|
      invariant |fds| == 3 && forall k | 0 <= k < 3 :: fds[k] == FdRecord(k, ModeOf(slots[..i], k))
    {
      forall fd { FindMore(slots, i, fd); }
      var what := slots[i].what;
      if what.fd < 3 {
        fds := fds[what.fd := RecordOf(slots[i])];
      }
    }
    assert slots[..|slots|] == slots;
  }

  // ... and the second: the others, in the order of the map.
  ghost function Others(slots: seq<Slot>): seq<FdRecord> {
    if slots == [] then []
    else
      var k := |slots| - 1;
      Others(slots[..k]) + if slots[k].what.fd >= 3 then [RecordOf(slots[k])] else []
  }

  function RecordOf(slot: Slot): FdRecord {
    FdRecord(slot.what.fd, ModeFor(slot.what))
  }

  lemma {:induction false} OthersHave(slots: seq<Slot>, fd: nat)
    requires OnePer(slots) && fd >= 3
    ensures var fds, at := Others(slots), Lookup(Others(slots), fd);
      && (at.Some? <==> Find(slots, fd).Some?)
      && (at.Some? ==> fds[at.value].mode == ModeOf(slots, fd))
  {
    if slots != [] {
      var k := |slots| - 1;
      OthersHave(slots[..k], fd);
      FindMore(slots, k, fd);
      assert slots[..k + 1] == slots;
      LookupAppend(Others(slots[..k]), if slots[k].what.fd >= 3 then [RecordOf(slots[k])] else [], fd);
    }
  }

  lemma {:induction false} OthersAreOthers(slots: seq<Slot>)
    requires OnePer(slots)
    ensures Distinct(Others(slots)) && forall k | 0 <= k < |Others(slots)| :: Others(slots)[k].fd >= 3
  {
    if slots != [] {
      var k := |slots| - 1;
      OthersAreOthers(slots[..k]);
      if slots[k].what.fd >= 3 {
        OthersHave(slots[..k], slots[k].what.fd);
        FindMore(slots, k, slots[k].what.fd);
      }
    }
  }

  method OtherInfos(slots: seq<Slot>) returns (fds: seq<FdRecord>)
    ensures fds == Others(slots)
  {
    fds := [];
    for i := 0 to |slots|
      invariant fds == Others(slots[..i])
    {
      assert slots[..i + 1][..i] == slots[..i];
      if slots[i].what.fd >= 3 {
        fds := fds + [RecordOf(slots[i])];
      }
    }
    assert slots[..|slots|] == slots;
  }

  method BuildCreateInfo(slots: seq<Slot>) returns (fds: seq<FdRecord>)
    requires OnePer(slots)
    ensures Describes(fds, slots)
  {
    var std := StdInfos(slots);
    var others := OtherInfos(slots);
    fds := std + others;
    TogetherDescribe(std, slots);
  }

  lemma TogetherDescribe(std: seq<FdRecord>, slots: seq<Slot>)
    requires OnePer(slots) && |std| == 3 && forall k | 0 <= k < 3 :: std[k] == FdRecord(k, ModeOf(slots, k))
    ensures Describes(std + Others(slots), slots)
  {
    hide Others, ModeOf;
    var fds := std + Others(slots);
    OthersAreOthers(slots);
    forall fd: nat
      ensures Lookup(fds, fd).Some? <==> fd < 3 || Find(slots, fd).Some?
      ensures Lookup(fds, fd).Some? ==> fds[Lookup(fds, fd).value].mode == ModeOf(slots, fd)
    {
      hide Lookup, Find;
      LookupAppend(std, Others(slots), fd);
      if fd < 3 {
        LookupAt(std, fd);
      } else {
        OthersHave(slots, fd);
      }
    }
    forall i | 0 <= i < |fds|
      ensures fds[i].mode == ModeOf(slots, fds[i].fd)
    {
      LookupAt(fds, i);
    }
  }

  lemma LookupAt(fds: seq<FdRecord>, i: nat)
    requires Distinct(fds) && i < |fds|
    ensures Lookup(fds, fds[i].fd) == Some(i)
  {
  }

  lemma LookupAppend(a: seq<FdRecord>, b: seq<FdRecord>, fd: int)
    ensures Lookup(a + b, fd) ==
      if Lookup(a, fd).Some? then Lookup(a, fd)
      else if Lookup(b, fd).Some? then Some(|a| + Lookup(b, fd).value)
      else None
  {
    if a == [] {
      assert a + b == b;
    } else {
      assert (a + b)[1..] == a[1..] + b;
      LookupAppend(a[1..], b, fd);
    }
  }

  lemma FindMore(slots: seq<Slot>, i: nat, fd: int)
    requires i < |slots| && OnePer(slots)
    ensures Find(slots[..i], slots[i].what.fd).None?
    ensures Find(slots[..i + 1], fd) == if fd == slots[i].what.fd then Some(i) else Find(slots[..i], fd)
  {
    var more := slots[..i + 1];
    var at, was := Find(more, fd), Find(slots[..i], fd);
    assert more[i].what.fd == slots[i].what.fd && forall j | 0 <= j < i :: slots[..i][j] == more[j];
  }

  // The destinations before duplications are resolved: what was given to
  // descriptors 0 to 2, and the files that were opened.
  ghost function OwnOf(slots: seq<Slot>, fd: nat): Destination {
    match Find(slots, fd)
    case None => Initially(fd)
    case Some(i) =>
      var what := slots[i].what;
      if what.File? then Opened(slots[i].order, what.input, what.append, what.name) else Closed
  }

  // Wherever the chain of duplications leads, the meaning stays the same.
  lemma {:induction false} WalkKeepsMeaning(rs: seq<Redirect>, fds: seq<FdRecord>, fd: nat, k: nat)
    requires DupOrderOk(SlotsOf(rs)) && Describes(fds, SlotsOf(rs))
    ensures var at := Walk(fds, fd, k); at >= 0 && InTurn(rs, at) == InTurn(rs, fd)
  {
    if k > 0 {
      WalkKeepsMeaning(rs, fds, fd, k - 1);
      var at := Walk(fds, fd, k - 1);
      if DupAt(fds, at) {
        LastWins(rs, at);
        DupMeansTarget(rs, at);
      }
    }
  }

  ghost function Rank(rs: seq<Redirect>, fd: nat): nat {
    match LastOn(rs, fd)
    case None => 0
    case Some(k) => k + 1
  }

  // Each hop goes to an earlier redirection, so that the chain comes to rest.
  lemma {:induction false} WalkEnds(rs: seq<Redirect>, fds: seq<FdRecord>, fd: nat, k: nat)
    requires DupOrderOk(SlotsOf(rs)) && Describes(fds, SlotsOf(rs))
    ensures var at := Walk(fds, fd, k); at >= 0 && (!DupAt(fds, at) || Rank(rs, at) + k <= Rank(rs, fd))
  {
    if k > 0 {
      WalkEnds(rs, fds, fd, k - 1);
      WalkKeepsMeaning(rs, fds, fd, k - 1);
      var at := Walk(fds, fd, k - 1);
      if DupAt(fds, at) {
        LastWins(rs, at);
        DupMeansTarget(rs, at);
      }
    }
  }

  // Main result.  For redirections that pass check_dup_order, no chain is
  // circular; a descriptor has a source to copy unless the redirections in
  // turn leave it closed; and what it gets is what they make of it.
  lemma ResolvedMeansInTurn(rs: seq<Redirect>, fds: seq<FdRecord>, fd: nat)
    requires DupOrderOk(SlotsOf(rs)) && Describes(fds, SlotsOf(rs)) && Lookup(fds, fd).Some?
    ensures exists k: nat :: !DupAt(fds, Walk(fds, fd, k))
    ensures Grounded(fds, fd) <==> InTurn(rs, fd) != Closed
    ensures Grounded(fds, fd) ==> GroundOf(fds, fd) >= 0 && OwnOf(SlotsOf(rs), GroundOf(fds, fd)) == InTurn(rs, fd)
  {
    var k := Rank(rs, fd) + 1;
    WalkEnds(rs, fds, fd, k);
    var at := Walk(fds, fd, k);
    assert !DupAt(fds, at);
    GroundIs(fds, fd, k);
    WalkKeepsMeaning(rs, fds, fd, k);
    LastWins(rs, at);
    InTurnIsLast(rs, at);
    if i: nat :| SettledAt(fds, Walk(fds, fd, i)) {
      WalksAgree(fds, fd, i, k);
    }
  }

  method BuildMap(rs: seq<Redirect>) returns (m: FdMap)
    ensures fresh(m) && m.slots == SlotsOf(rs) && OnePer(m.slots)
  {
    m := new FdMap();
    for i := 0 to |rs|
      invariant fresh(m) && m.slots == SlotsOf(rs[..i])
    {
      assert rs[..i + 1][..i] == rs[..i];
      if Effective(rs[i]) {
        m.Set(rs[i], i + 1);
      }
    }
    assert rs[..|rs|] == rs;
    OnePerDescriptor(rs);
  }

  // What the described child has of its own is what the redirections in turn
  // give: each file as its redirection asks for it, and nothing else opened.
  lemma OpensInTurn(rs: seq<Redirect>, fds: seq<FdRecord>, i: nat)
    requires Describes(fds, SlotsOf(rs)) && i < |fds|
    ensures match fds[i].mode
      case Inherited => LastOn(rs, fds[i].fd).None? && InTurn(rs, fds[i].fd) == Initially(fds[i].fd)
      case Opens(input, append, name) =>
        && LastOn(rs, fds[i].fd).Some?
        && InTurn(rs, fds[i].fd) == Opened(LastOn(rs, fds[i].fd).value + 1, input, append, name)
      case DupOf(target) =>
        LastOn(rs, fds[i].fd).Some? && rs[LastOn(rs, fds[i].fd).value] == Dup(fds[i].fd, rs[LastOn(rs, fds[i].fd).value].input, target)
  {
    LastWins(rs, fds[i].fd);
    InTurnIsLast(rs, fds[i].fd);
  }

  // What resolving gives one descriptor.
  ghost predicate Faithful(rs: seq<Redirect>, fds: seq<FdRecord>, fd: nat) {
    if DupAt(fds, fd) then
      var ground := GroundOf(fds, fd);
      && LastOn(rs, fd).Some? && (Grounded(fds, fd) <==> InTurn(rs, fd) != Closed)
      && (Grounded(fds, fd) ==> ground >= 0 && OwnOf(SlotsOf(rs), ground) == InTurn(rs, fd))
      && exists k: nat :: !DupAt(fds, Walk(fds, fd, k))
    else
      OwnOf(SlotsOf(rs), fd) == InTurn(rs, fd) && (LastOn(rs, fd).Some? ==> InTurn(rs, fd) != Closed)
  }

  lemma EachFaithful(rs: seq<Redirect>, fds: seq<FdRecord>, fd: nat)
    requires DupOrderOk(SlotsOf(rs)) && Describes(fds, SlotsOf(rs))
    ensures Faithful(rs, fds, fd)
    ensures LastOn(rs, fd).Some? ==> Lookup(fds, fd).Some?
  {
    LastWins(rs, fd);
    InTurnIsLast(rs, fd);
    if Lookup(fds, fd).Some? {
      ResolvedMeansInTurn(rs, fds, fd);
    }
  }

  ghost predicate AllFaithful(rs: seq<Redirect>, fds: seq<FdRecord>) {
    forall fd: nat :: Faithful(rs, fds, fd) && (LastOn(rs, fd).Some? ==> Lookup(fds, fd).Some?)
  }

  ghost predicate AllGrounded(fds: seq<FdRecord>) {
    forall i | 0 <= i < |fds| && fds[i].mode.DupOf? :: Grounded(fds, fds[i].fd)
  }

  // No redirected descriptor ends closed.
  ghost predicate AllOpen(rs: seq<Redirect>) {
    forall fd: nat | LastOn(rs, fd).Some? :: InTurn(rs, fd) != Closed
  }

  lemma GroundedWhenOpen(rs: seq<Redirect>, fds: seq<FdRecord>)
    requires Distinct(fds) && AllFaithful(rs, fds)
    ensures AllGrounded(fds) <==> AllOpen(rs)
  {
    hide InTurn, OwnOf, SlotsOf, LastOn, Grounded, GroundOf, Walk;
    if AllGrounded(fds) {
      forall fd: nat | LastOn(rs, fd).Some?
        ensures InTurn(rs, fd) != Closed
      {
        assert Faithful(rs, fds, fd);
      }
    }
    if AllOpen(rs) {
      forall i | 0 <= i < |fds| && fds[i].mode.DupOf?
        ensures Grounded(fds, fds[i].fd)
      {
        LookupAt(fds, i);
        assert Faithful(rs, fds, fds[i].fd);
      }
    }
  }

  lemma AllGet(rs: seq<Redirect>, fds: seq<FdRecord>, before: seq<Destination>, after: seq<Destination>)
    requires |before| == |after| && forall i | 0 <= i < |fds| :: fds[i].fd < |before|
    requires forall fd | 0 <= fd < |before| :: before[fd] == OwnOf(SlotsOf(rs), fd)
    requires AllFaithful(rs, fds) && AllGrounded(fds)
    requires forall i | 0 <= i < |fds| && fds[i].mode.DupOf? ::
      SettledAt(fds, GroundOf(fds, fds[i].fd)) && after[fds[i].fd] == before[GroundOf(fds, fds[i].fd)]
    requires forall f | 0 <= f < |after| && !DupAt(fds, f) :: after[f] == before[f]
    ensures forall fd | 0 <= fd < |after| :: after[fd] == InTurn(rs, fd)
  {
    hide InTurn, OwnOf, SlotsOf, LastOn, Grounded, GroundOf, Walk;
    forall fd | 0 <= fd < |after|
      ensures after[fd] == InTurn(rs, fd)
    {
      assert Faithful(rs, fds, fd);
      if DupAt(fds, fd) {
        assert fds[Lookup(fds, fd).value].fd == fd;
      }
    }
  }

  lemma NeverCircular(rs: seq<Redirect>, fds: seq<FdRecord>, i: nat, error: ResolveError)
    requires Distinct(fds) && AllFaithful(rs, fds) && i < |fds| && fds[i].mode.DupOf? && Explains(fds, fds[i].fd, error)
    ensures error.NotConfigured?
  {
    LookupAt(fds, i);
    assert Faithful(rs, fds, fds[i].fd);
  }

  // The same for the run of the program: the map is built up, checked, turned
  // into the description of a child and resolved.
  method Resolve(rs: seq<Redirect>, stdio: array<Destination>) returns (accepted: bool, error: Option<ResolveError>)
    requires stdio.Length >= 3 && forall i | 0 <= i < |rs| :: rs[i].fd < stdio.Length
    requires forall fd | 0 <= fd < stdio.Length :: stdio[fd] == OwnOf(SlotsOf(rs), fd)
    modifies stdio
    ensures accepted <==> DupOrderOk(SlotsOf(rs))
    ensures accepted ==> (error == None <==> AllOpen(rs))
    ensures accepted && error == None ==> forall fd | 0 <= fd < stdio.Length :: stdio[fd] == InTurn(rs, fd)
    ensures accepted && error != None ==> error.value.NotConfigured?
  {
    hide InTurn, OwnOf, SlotsOf, LastOn, DupOrderOk, Describes, Grounded, GroundOf, Walk, Faithful, Explains, DupAt;
    ghost var before := stdio[..];
    var m := BuildMap(rs);
    error := None;
    accepted := m.CheckDupOrder();
    if !accepted {
      return;
    }
    var fds := BuildCreateInfo(m.slots);
    DescriptorsFit(rs, fds, stdio.Length);
    error := ResolveDupFds(fds, stdio);
    forall fd: nat
      ensures Faithful(rs, fds, fd) && (LastOn(rs, fd).Some? ==> Lookup(fds, fd).Some?)
    {
      EachFaithful(rs, fds, fd);
    }
    GroundedWhenOpen(rs, fds);
    if error.None? {
      AllGet(rs, fds, before, stdio[..]);
      assert forall fd | 0 <= fd < stdio.Length :: stdio[fd] == stdio[..][fd];
    } else {
      ghost var i :| 0 <= i < |fds| && fds[i].mode.DupOf? && Explains(fds, fds[i].fd, error.value);
      NeverCircular(rs, fds, i, error.value);
    }
  }

  lemma DescriptorsFit(rs: seq<Redirect>, fds: seq<FdRecord>, n: nat)
    requires Describes(fds, SlotsOf(rs)) && n >= 3 && forall i | 0 <= i < |rs| :: rs[i].fd < n
    ensures Distinct(fds) && forall i | 0 <= i < |fds| :: fds[i].fd < n
  {
    forall i | 0 <= i < |fds|
      ensures fds[i].fd < n
    {
      assert Lookup(fds, fds[i].fd).Some?;
      LastWins(rs, fds[i].fd);
    }
  }

  // Why the check is there: '2>&1 >log' gives descriptor 2 the old standard
  // output, but would resolve to the log.
  lemma RefusedForGoodReason(name: string, fds: seq<FdRecord>)
    requires Describes(fds, SlotsOf([Dup(2, false, 1), File(1, false, false, name)]))
    ensures var rs := [Dup(2, false, 1), File(1, false, false, name)];
      && !DupOrderOk(SlotsOf(rs)) && Grounded(fds, 2)
      && InTurn(rs, 2) == Base(1) && GroundOf(fds, 2) >= 0 && OwnOf(SlotsOf(rs), GroundOf(fds, 2)) == Opened(2, false, false, name)
  {
    var r, s := Dup(2, false, 1), File(1, false, false, name);
    var rs := [r, s];
    assert rs[..1] == [r] && [r][..0] == [];
    assert SlotsOf([r]) == [Slot(r, 1)];
    var slots := SlotsOf(rs);
    assert slots == [Slot(r, 1), Slot(s, 2)];
    assert Find(slots, 2) == Some(0) && Find(slots, 1) == Some(1);
    assert !OrderOk(slots, slots[0]);
    assert InTurn(rs, 2) == InTurn([r], 2) == InTurn([], 1);
    assert Walk(fds, 2, 0) == 2 && Walk(fds, 2, 1) == 1;
    GroundIs(fds, 2, 1);
    assert SettledAt(fds, Walk(fds, 2, 1));
  }

  // A map without repetitions finds each slot where it is.
  lemma Places(slots: seq<Slot>)
    requires OnePer(slots)
    ensures forall i | 0 <= i < |slots| :: Find(slots, slots[i].what.fd) == Some(i)
  {
  }

  // '5>log 1>&5 3>&1 1>&5'
  function Cautious(name: string): seq<Redirect> {
    [File(5, false, false, name), Dup(1, false, 5), Dup(3, false, 1), Dup(1, false, 5)]
  }

  lemma CautiousMap(name: string)
    ensures var rs := Cautious(name);
      SlotsOf(rs) == [Slot(rs[0], 1), Slot(rs[3], 4), Slot(rs[2], 3)]
  {
    var a, b, c := File(5, false, false, name), Dup(1, false, 5), Dup(3, false, 1);
    var rs := Cautious(name);
    assert rs[..3] == [a, b, c] && [a, b, c][..2] == [a, b] && [a, b][..1] == [a] && [a][..0] == [];
    assert SlotsOf([a]) == [Slot(a, 1)];
    assert SlotsOf([a, b]) == [Slot(a, 1), Slot(b, 2)];
    assert SlotsOf([a, b, c]) == [Slot(a, 1), Slot(b, 2), Slot(c, 3)];
    assert Find(SlotsOf([a, b, c]), 1) == Some(1);
  }

  lemma CautiousMeaning(name: string, fd: nat)
    ensures InTurn(Cautious(name), fd)
         == if fd == 1 || fd == 3 || fd == 5 then Opened(1, false, false, name) else Initially(fd)
  {
    var a, b, c := File(5, false, false, name), Dup(1, false, 5), Dup(3, false, 1);
    var rs := Cautious(name);
    assert rs[..3] == [a, b, c] && [a, b, c][..2] == [a, b] && [a, b][..1] == [a] && [a][..0] == [];
    forall f: nat
      ensures InTurn([a, b], f) == if f == 1 || f == 5 then Opened(1, false, false, name) else Initially(f)
    {
      assert InTurn([a], f) == if f == 5 then Opened(1, false, false, name) else Initially(f);
      assert InTurn([a], 5) == Opened(1, false, false, name);
    }
    assert InTurn([a, b, c], fd) == InTurn([a, b], if fd == 3 then 1 else fd);
    assert InTurn([a, b, c], 5) == InTurn([a, b], 5);
  }

  // The check is cautious: it refuses this too, though resolving would agree
  // for every descriptor.
  lemma RefusedWithoutNeed(name: string, fds: seq<FdRecord>)
    requires Describes(fds, SlotsOf(Cautious(name)))
    ensures !DupOrderOk(SlotsOf(Cautious(name)))
    ensures forall fd: nat | Lookup(fds, fd).Some? ::
      && Grounded(fds, fd) && GroundOf(fds, fd) >= 0
      && OwnOf(SlotsOf(Cautious(name)), GroundOf(fds, fd)) == InTurn(Cautious(name), fd)
  {
    hide SlotsOf, InTurn;
    CautiousMap(name);
    var slots := SlotsOf(Cautious(name));
    Places(slots);
    assert Find(slots, slots[0].what.fd) == Some(0) && Find(slots, slots[1].what.fd) == Some(1);
    assert Find(slots, slots[2].what.fd) == Some(2);
    assert !OrderOk(slots, slots[2]);
    forall fd: nat | Lookup(fds, fd).Some?
      ensures Grounded(fds, fd) && GroundOf(fds, fd) >= 0 && OwnOf(slots, GroundOf(fds, fd)) == InTurn(Cautious(name), fd)
    {
      CautiousMeaning(name, fd);
      var k := if fd == 1 then 1 else if fd == 3 then 2 else 0;
      CautiousWalk(name, fds, fd, k);
      GroundIs(fds, fd, k);
    }
  }

  lemma CautiousWalk(name: string, fds: seq<FdRecord>, fd: nat, k: nat)
    requires Describes(fds, SlotsOf(Cautious(name))) && Lookup(fds, fd).Some?
    requires k == if fd == 1 then 1 else if fd == 3 then 2 else 0
    ensures SettledAt(fds, Walk(fds, fd, k)) && Walk(fds, fd, k) == if k == 0 then fd else 5
  {
    hide SlotsOf;
    CautiousMap(name);
    var slots := SlotsOf(Cautious(name));
    Places(slots);
    assert Find(slots, slots[0].what.fd) == Some(0) && Find(slots, slots[1].what.fd) == Some(1);
    assert Find(slots, slots[2].what.fd) == Some(2);
    assert Walk(fds, fd, 0) == fd;
    assert fd == 1 ==> Walk(fds, fd, 1) == 5;
    assert fd == 3 ==> Walk(fds, fd, 1) == 1 && Walk(fds, fd, 2) == 5;
  }
}
