// Runs of operations over several buffers that share one recycling pool.
module BufferRuns {
  import opened Basics
  import opened BufferPieces
  import opened FragmentBuffer

  datatype Op =
    | Append(to: nat, data: seq<byte>)
    | AppendSmall(to: nat, data: seq<byte>)
    | AppendByte(to: nat, value: byte)
    | AppendRepeatedByte(to: nat, count: nat, value: byte)
    | AppendForeign(to: nat, data: seq<byte>, destroy: Option<Token>)
    | Read(to: nat, max: nat)
    | Discard(to: nat, max: nat)
    | ReadLine(to: nat)
    | Reset(to: nat)
    | Transfer(to: nat, from: nat)
    | TransferMax(to: nat, from: nat, max: nat)
    | AppendBufferMax(to: nat, from: nat, max: nat)
  {
    predicate Moves() {
      Transfer? || TransferMax? || AppendBufferMax?
    }

    // Source and destination are two of the n buffers.
    predicate Fits(n: nat) {
      to < n && (Moves() ==> from < n && from != to)
    }

    ghost function Given(): multiset<Token> {
      if AppendForeign? && destroy.Some? then multiset{destroy.value} else multiset{}
    }
  }

  // ---- what the operations mean on plain byte sequences ----

  ghost function Min(a: nat, b: nat): nat {
    if a < b then a else b
  }

  // The bytes before the first newline, if there is one.
  ghost function LineOf(s: seq<byte>): Option<seq<byte>> {
    if s == [] then None
    else if s[0] == NEWLINE then Some([])
    else
      match LineOf(s[1..])
      case None => None
      case Some(line) => Some([s[0]] + line)
  }

  lemma {:induction false} LineOfIs(s: seq<byte>, line: seq<byte>, rest: seq<byte>)
    requires 10 !in line && s == line + [10] + rest
    ensures LineOf(s) == Some(line)
  {
    if line != [] {
      assert s[1..] == line[1..] + [10] + rest;
      LineOfIs(s[1..], line[1..], rest);
      assert line == [line[0]] + line[1..];
    }
  }

  lemma {:induction false} NoLine(s: seq<byte>)
    requires 10 !in s
    ensures LineOf(s) == None
  {
    if s != [] {
      NoLine(s[1..]);
    }
  }

  // The bytes handed back.
  ghost function Answer(s: seq<byte>, op: Op): seq<byte> {
    match op
    case Read(_, max) => s[..Min(max, |s|)]
    case ReadLine(_) => if LineOf(s).Some? then LineOf(s).value else []
    case _ => []
  }

  // The buffer operated on, afterwards.
  ghost function Alone(s: seq<byte>, op: Op): seq<byte>
    requires !op.Moves()
  {
    match op
    case Append(_, data) => s + data
    case AppendSmall(_, data) => s + data
    case AppendByte(_, value) => s + [value]
    case AppendRepeatedByte(_, count, value) => s + seq(count, _ => value)
    case AppendForeign(_, data, _) => s + data
    case Read(_, max) => s[Min(max, |s|)..]
    case Discard(_, max) => s[Min(max, |s|)..]
    case ReadLine(_) =>
      if LineOf(s).Some? && |LineOf(s).value| < |s| then s[|LineOf(s).value| + 1..] else s
    case Reset(_) => []
  }

  // How many bytes go from one buffer to the other, and whether they leave the first.
  ghost function Share(source: seq<byte>, op: Op): nat
    requires op.Moves()
    ensures Share(source, op) <= |source|
  {
    if op.Transfer? then |source| else Min(op.max, |source|)
  }

  ghost function Apply(texts: seq<seq<byte>>, op: Op): (after: seq<seq<byte>>)
    requires op.Fits(|texts|)
    ensures |after| == |texts|
  {
    if op.Moves() then
      var n := Share(texts[op.from], op);
      var grown := texts[op.to := texts[op.to] + texts[op.from][..n]];
      if op.AppendBufferMax? then grown else grown[op.from := texts[op.from][n..]]
    else
      texts[op.to := Alone(texts[op.to], op)]
  }

  lemma ApplyMove(texts: seq<seq<byte>>, op: Op, after: seq<seq<byte>>)
    requires op.Fits(|texts|) && op.Moves()
    requires var n := Share(texts[op.from], op);
      after == texts[op.to := texts[op.to] + texts[op.from][..n]]
                    [op.from := if op.AppendBufferMax? then texts[op.from] else texts[op.from][n..]]
    ensures after == Apply(texts, op)
  {
  }

  ghost function ApplyAll(texts: seq<seq<byte>>, ops: seq<Op>): (after: seq<seq<byte>>)
    requires forall k | 0 <= k < |ops| :: ops[k].Fits(|texts|)
    ensures |after| == |texts|
  {
    if ops == [] then texts else Apply(ApplyAll(texts, ops[..|ops| - 1]), ops[|ops| - 1])
  }

  ghost function Handed(texts: seq<seq<byte>>, op: Op): seq<byte>
    requires op.Fits(|texts|)
  {
    if op.Moves() then [] else Answer(texts[op.to], op)
  }

  ghost function AllAnswers(texts: seq<seq<byte>>, ops: seq<Op>): (outs: seq<seq<byte>>)
    requires forall k | 0 <= k < |ops| :: ops[k].Fits(|texts|)
    ensures |outs| == |ops|
  {
    if ops == [] then []
    else
      var before, op := ops[..|ops| - 1], ops[|ops| - 1];
      AllAnswers(texts, before) + [Handed(ApplyAll(texts, before), op)]
  }

  ghost function AllGiven(ops: seq<Op>): multiset<Token> {
    if ops == [] then multiset{} else AllGiven(ops[..|ops| - 1]) + ops[|ops| - 1].Given()
  }

  lemma NoSteps(texts: seq<seq<byte>>)
    ensures ApplyAll(texts, []) == texts && AllAnswers(texts, []) == [] && AllGiven([]) == multiset{}
  {
  }

  lemma OneMore(texts: seq<seq<byte>>, ops: seq<Op>, k: nat)
    requires k < |ops| && forall k | 0 <= k < |ops| :: ops[k].Fits(|texts|)
    ensures var before := ApplyAll(texts, ops[..k]);
      && ApplyAll(texts, ops[..k + 1]) == Apply(before, ops[k])
      && AllAnswers(texts, ops[..k + 1]) == AllAnswers(texts, ops[..k]) + [Handed(before, ops[k])]
    ensures AllGiven(ops[..k + 1]) == AllGiven(ops[..k]) + ops[k].Given()
  {
    assert ops[..k + 1][..k] == ops[..k];
  }

  ghost function Sum(owed: seq<multiset<Token>>): multiset<Token> {
    if owed == [] then multiset{} else owed[0] + Sum(owed[1..])
  }

  lemma {:induction false} SumUpdate(owed: seq<multiset<Token>>, i: nat, m: multiset<Token>)
    requires i < |owed|
    ensures Sum(owed[i := m]) + owed[i] == Sum(owed) + m
  {
    var changed := owed[i := m];
    if i == 0 {
      assert changed[1..] == owed[1..];
    } else {
      var rest := owed[1..];
      assert changed[1..] == rest[i - 1 := m] && changed[0] == owed[0] && rest[i - 1] == owed[i];
      SumUpdate(rest, i - 1, m);
      Regroup(owed[0], Sum(rest[i - 1 := m]), owed[i], Sum(rest), m);
    }
  }

  lemma Regroup(a: multiset<Token>, b: multiset<Token>, c: multiset<Token>, d: multiset<Token>, e: multiset<Token>)
    requires b + c == d + e
    ensures (a + b) + c == (a + d) + e
  {
    assert (a + b) + c == a + (b + c);
  }

  // d callbacks had run and o were owed here, s in all; the primed are later.
  lemma Balance(d: multiset<Token>, d': multiset<Token>, o: multiset<Token>, o': multiset<Token>, g: multiset<Token>,
                s: multiset<Token>, s': multiset<Token>)
    requires d' + o' == d + o + g && s' + o == s + o'
    ensures d' + s' == d + s + g
  {
    forall t: Token
      ensures (d' + s')[t] == (d + s + g)[t]
    {
      assert (d' + o')[t] == (d + o + g)[t] && (s' + o)[t] == (s + o')[t];
    }
  }

  lemma Exchange(s0: multiset<Token>, s1: multiset<Token>, s2: multiset<Token>,
                 a: multiset<Token>, b: multiset<Token>, a': multiset<Token>, b': multiset<Token>)
    requires s1 + a == s0 + a' && s2 + b == s1 + b' && a' + b' == a + b
    ensures s2 == s0
  {
    forall t: Token
      ensures s2[t] == s0[t]
    {
      assert (s1 + a)[t] == (s0 + a')[t] && (s2 + b)[t] == (s1 + b')[t] && (a' + b')[t] == (a + b)[t];
    }
  }

  // ---- one buffer ----

  method Single(arena: Arena, b: Buffer, op: Op) returns (out: seq<byte>)
    requires b.Valid(arena) && !op.Moves()
    modifies b, b.mine, b.chunks, arena, arena.spare, arena.chunks
    ensures b.Valid(arena) && b.Frame(arena)
    ensures b.Contents() == Alone(old(b.Contents()), op) && out == Answer(old(b.Contents()), op)
    ensures multiset(arena.destroyed) + b.Owed() == multiset(old(arena.destroyed)) + old(b.Owed()) + op.Given()
  {
    hide Buffer.Chain, Buffer.NoneEmpty, Flatten, Tokens, Arena.Valid;
    out := [];
    match op
    case Append(_, data) => b.Append(arena, data);
    case AppendSmall(_, data) => b.AppendSmall(arena, data);
    case AppendByte(_, value) => b.AppendByte(arena, value);
    case AppendRepeatedByte(_, count, value) => b.AppendRepeatedByte(arena, count, value);
    case AppendForeign(_, data, destroy) => Foreign(arena, b, data, destroy);
    case Read(_, max) => out := b.Read(arena, max); Taken(old(b.Contents()), out, b.Contents());
    case Discard(_, max) => var _ := b.Discard(arena, max);
    case ReadLine(_) => out := Line(arena, b);
    case Reset(_) => b.Reset(arena);
  }

  lemma Taken(s: seq<byte>, front: seq<byte>, rest: seq<byte>)
    requires s == front + rest
    ensures front == s[..|front|] && rest == s[|front|..]
  {
  }

  // The caller's memory is laid out for the buffer to take as it is.
  method Foreign(arena: Arena, b: Buffer, data: seq<byte>, destroy: Option<Token>)
    requires b.Valid(arena)
    modifies b, b.mine, arena
    ensures b.Valid(arena) && b.Frame(arena) && b.Contents() == old(b.Contents()) + data
    ensures multiset(arena.destroyed) + b.Owed()
         == multiset(old(arena.destroyed)) + old(b.Owed()) + TokenOf(Piece([], destroy))
  {
    hide Buffer.Chain, Buffer.NoneEmpty, Flatten, Tokens, Arena.Valid;
    var memory := new byte[|data|](i requires 0 <= i < |data| => data[i]);
    assert memory[..|data|] == data;
    b.AppendForeign(arena, memory, |data|, destroy);
  }

  method Line(arena: Arena, b: Buffer) returns (out: seq<byte>)
    requires b.Valid(arena)
    modifies b, b.mine, arena
    ensures b.Valid(arena) && b.Frame(arena)
    ensures b.Contents() == Alone(old(b.Contents()), ReadLine(0)) && out == Answer(old(b.Contents()), ReadLine(0))
    ensures multiset(arena.destroyed) + b.Owed() == multiset(old(arena.destroyed)) + old(b.Owed())
  {
    hide Buffer.Chain, Buffer.NoneEmpty, Flatten, Tokens, Arena.Valid;
    ghost var before := b.Contents();
    var line := b.ReadLine(arena);
    match line
    case None =>
      NoLine(before);
      out := [];
    case Some(text) =>
      LineOfIs(before, text, b.Contents());
      assert before[|text| + 1..] == b.Contents();
      out := text;
  }

  // ---- two buffers ----

  method Pair(arena: Arena, b: Buffer, src: Buffer, op: Op)
    requires b.Valid(arena) && src.Valid(arena) && b.Apart(src) && op.Moves()
    modifies b, src, b.mine, src.mine, b.chunks, src.chunks, arena, arena.spare, arena.chunks
    ensures b.Valid(arena) && src.Valid(arena) && b.Apart(src) && b.Frame2(arena, src)
    ensures b.Contents() == old(b.Contents()) + old(src.Contents())[..Share(old(src.Contents()), op)]
    ensures src.Contents()
         == if op.AppendBufferMax? then old(src.Contents()) else old(src.Contents())[Share(old(src.Contents()), op)..]
    ensures b.Owed() + src.Owed() == old(b.Owed()) + old(src.Owed()) && arena.destroyed == old(arena.destroyed)
  {
    hide Buffer.Chain, Buffer.NoneEmpty, Flatten, Tokens, Arena.Valid;
    match op
    case Transfer(_, _) => var _ := b.Transfer(arena, src);
    case TransferMax(_, _, max) => var _ := b.TransferMax(arena, src, max);
    case AppendBufferMax(_, _, max) => var _ := b.AppendBufferMax(arena, src, max);
  }

  // ---- all of them ----

  class Workspace {
    const arena: Arena
    const bufs: seq<Buffer>
    ghost var texts: seq<seq<byte>>
    ghost var owed: seq<multiset<Token>>
    ghost var given: multiset<Token>
    ghost var reach: set<object>
    ghost var memory: set<array<byte>>

    // Each buffer is sound and holds its text; no two share anything; a
    // callback that was given and has not run is owed by exactly one buffer.
    ghost predicate Valid()
      reads this, bufs, reach, memory, arena
    {
      && this !in reach && Sound() && |texts| == |owed| == |bufs|
      && (forall i | 0 <= i < |bufs| :: texts[i] == bufs[i].Contents() && owed[i] == bufs[i].Owed())
      && multiset(arena.destroyed) + Sum(owed) == given
    }

    ghost predicate Sound()
      reads this`reach, this`memory, bufs, reach, memory
    {
      && Separate() && Reached() && arena.Valid()
      && forall i | 0 <= i < |bufs| :: bufs[i].Valid(arena)
    }

    ghost predicate Separate()
      reads bufs
    {
      forall i, j | 0 <= i < |bufs| && 0 <= j < |bufs| && i != j :: bufs[i].Apart(bufs[j])
    }

    ghost predicate Reached()
      reads this`reach, this`memory, bufs, reach
    {
      && arena in reach && arena.spare <= reach && arena.chunks <= reach
      && forall i | 0 <= i < |bufs| ::
           && bufs[i] in reach && bufs[i].mine <= reach && bufs[i].chunks <= reach
           && (forall f | f in bufs[i].frags :: f in reach && f.buf in memory)
    }

    constructor (arena: Arena, bufs: seq<Buffer>)
      requires arena.Valid() && arena.destroyed == [] && arena.spare == {} && arena.chunks == {}
      requires forall i | 0 <= i < |bufs| :: Blank(arena, bufs[i])
      requires forall i, j | 0 <= i < |bufs| && 0 <= j < |bufs| && i != j :: bufs[i] != bufs[j]
      ensures Valid() && |texts| == |bufs| && (forall i | 0 <= i < |texts| :: texts[i] == []) && given == multiset{}
      ensures this.arena == arena && this.bufs == bufs
      ensures reach == {arena as object} + set i | 0 <= i < |bufs| :: bufs[i] as object
    {
      this.arena, this.bufs := arena, bufs;
      texts, owed := seq(|bufs|, _ => []), seq(|bufs|, _ => multiset{});
      given := multiset{};
      memory := {};
      reach := {arena as object} + set i | 0 <= i < |bufs| :: bufs[i] as object;
      new;
      hide Buffer.Valid, Buffer.Apart, Arena.Valid, Flatten, Tokens, Sum, Blank, Sound;
      BlanksSound();
      NothingHeld();
    }

    lemma NothingHeld()
      requires this !in reach && Sound() && arena.destroyed == [] && given == multiset{}
      requires texts == seq(|bufs|, _ => []) && owed == seq(|bufs|, _ => multiset{})
      requires forall i | 0 <= i < |bufs| :: Blank(arena, bufs[i])
      ensures Valid()
    {
      hide Buffer.Valid, Buffer.Apart, Arena.Valid, Flatten, Tokens, Sum, Blank, Sound;
      BlankTexts(arena, bufs);
      SumOfNone(owed);
    }

    lemma BlanksSound()
      requires arena.Valid() && arena.spare == {} && arena.chunks == {}
      requires forall i | 0 <= i < |bufs| :: Blank(arena, bufs[i])
      requires forall i, j | 0 <= i < |bufs| && 0 <= j < |bufs| && i != j :: bufs[i] != bufs[j]
      requires reach == {arena as object} + set i | 0 <= i < |bufs| :: bufs[i] as object
      ensures Sound()
    {
      hide Buffer.Valid, Buffer.Apart, Arena.Valid, Flatten, Tokens, Blank;
      BlanksApart(arena, bufs);
    }

    // Any operation: the texts change as plain byte sequences do.
    method Step(op: Op) returns (out: seq<byte>)
      requires Valid() && op.Fits(|bufs|)
      modifies this`texts, this`owed, this`given, this`reach, this`memory, reach
      ensures Valid() && texts == Apply(old(texts), op) && given == old(given) + op.Given()
      ensures out == Handed(old(texts), op)
      ensures fresh(reach - old(reach))
    {
      if op.Moves() {
        out := [];
        Two(op);
      } else {
        out := One(op);
      }
    }

    // Bytes and links of the other buffers are not within reach of an operation on b.
    lemma OutOfReach(b: Buffer)
      requires arena.Valid() && Separate() && b in bufs
      requires forall i | 0 <= i < |bufs| :: bufs[i].Valid(arena)
      ensures forall i | 0 <= i < |bufs| && bufs[i] != b ::
        forall f | f in bufs[i].frags :: f in bufs[i].mine && f.buf !in b.chunks && f.buf !in arena.chunks
    {
      hide Buffer.Linked, Buffer.Loaded, Flatten, Tokens, Arena.Valid;
      forall i | 0 <= i < |bufs| && bufs[i] != b
        ensures forall f | f in bufs[i].frags :: f in bufs[i].mine && f.buf !in b.chunks && f.buf !in arena.chunks
      {
        bufs[i].FragmentsAreMine(arena.home);
        bufs[i].BytesApart(arena, b);
      }
    }

    // Nothing of the buffer has changed, though the arena may have.
    twostate predicate Untouched(o: Buffer)
      reads o
    {
      && o.pieces == old(o.pieces) && o.frags == old(o.frags)
      && o.mine == old(o.mine) && o.chunks == old(o.chunks)
    }

    // The operation itself, and what it leaves alone.
    method Alter(op: Op) returns (out: seq<byte>)
      requires Valid() && op.Fits(|bufs|) && !op.Moves()
      modifies reach
      ensures bufs[op.to].Valid(arena) && bufs[op.to].Frame(arena)
      ensures bufs[op.to].Contents() == Alone(old(bufs[op.to].Contents()), op)
      ensures out == Answer(old(bufs[op.to].Contents()), op)
      ensures multiset(arena.destroyed) + bufs[op.to].Owed()
           == multiset(old(arena.destroyed)) + old(bufs[op.to].Owed()) + op.Given()
      ensures forall i | 0 <= i < |bufs| && i != op.to :: bufs[i].Valid(arena) && Untouched(bufs[i])
    {
      hide Buffer.Linked, Buffer.Loaded, Buffer.NoneEmpty, Flatten, Tokens, Arena.Valid, Sum, Alone, Answer;
      var b := bufs[op.to];
      ghost var home := arena.home;
      OutOfReach(b);
      out := Single(arena, b, op);
      forall i | 0 <= i < |bufs| && i != op.to
        ensures bufs[i].Valid(arena)
      {
        bufs[i].StillValid(arena, home);
      }
    }

    // What can be reached has grown with buffers k and m.
    ghost method Enclose(k: nat, m: nat)
      requires k < |bufs| && m < |bufs| && arena.Valid() && Separate() && arena in reach
      requires forall i | 0 <= i < |bufs| :: bufs[i].Valid(arena) && bufs[i] in reach
      requires forall i | 0 <= i < |bufs| && i != k && i != m ::
        && bufs[i].mine <= reach && bufs[i].chunks <= reach
        && (forall f | f in bufs[i].frags :: f in reach && f.buf in memory)
      modifies this`reach, this`memory
      ensures Sound()
      ensures reach == old(reach) + bufs[k].mine + bufs[k].chunks + bufs[m].mine + bufs[m].chunks + arena.spare + arena.chunks
    {
      hide Buffer.Linked, Buffer.Loaded, Buffer.NoneEmpty, Flatten, Arena.Valid;
      var b, c := bufs[k], bufs[m];
      b.FragmentsAreMine(arena.home);
      c.FragmentsAreMine(arena.home);
      memory := memory + (set f | f in b.frags :: f.buf) + set f | f in c.frags :: f.buf;
      reach := reach + b.mine + b.chunks + c.mine + c.chunks + arena.spare + arena.chunks;
    }

    // The texts and the callbacks owed, after a change to buffer k.
    ghost method Record(k: nat, d: multiset<Token>, g: multiset<Token>)
      requires this !in reach && Sound() && k < |texts| == |owed| == |bufs|
      requires forall i | 0 <= i < |bufs| && i != k :: texts[i] == bufs[i].Contents() && owed[i] == bufs[i].Owed()
      requires d + Sum(owed) == given && multiset(arena.destroyed) + bufs[k].Owed() == d + owed[k] + g
      modifies this`texts, this`owed, this`given
      ensures Valid() && texts == old(texts)[k := bufs[k].Contents()] && given == old(given) + g
    {
      hide Sound, Flatten, Tokens, Sum;
      var text, left := bufs[k].Contents(), bufs[k].Owed();
      SumUpdate(owed, k, left);
      Balance(d, multiset(arena.destroyed), owed[k], left, g, Sum(owed), Sum(owed[k := left]));
      given, texts, owed := given + g, texts[k := text], owed[k := left];
    }

    method One(op: Op) returns (out: seq<byte>)
      requires Valid() && op.Fits(|bufs|) && !op.Moves()
      modifies this`texts, this`owed, this`given, this`reach, this`memory, reach
      ensures Valid() && texts == Apply(old(texts), op) && given == old(given) + op.Given()
      ensures out == Answer(old(texts)[op.to], op) && fresh(reach - old(reach))
    {
      hide Buffer.Linked, Buffer.Loaded, Buffer.NoneEmpty, Flatten, Tokens, Arena.Valid, Sum, Alone, Answer;
      ghost var d := multiset(arena.destroyed);
      out := Alter(op);
      assert Separate();
      Enclose(op.to, op.to);
      Record(op.to, d, op.Given());
    }

    method AlterTwo(op: Op)
      requires Valid() && op.Fits(|bufs|) && op.Moves()
      modifies reach
      ensures var b, src := bufs[op.to], bufs[op.from];
        b.Valid(arena) && src.Valid(arena) && b.Apart(src) && src.Apart(b) && b.Frame2(arena, src)
      ensures bufs[op.to].Contents() == old(bufs[op.to].Contents())
           + old(bufs[op.from].Contents())[..Share(old(bufs[op.from].Contents()), op)]
      ensures bufs[op.from].Contents()
           == if op.AppendBufferMax? then old(bufs[op.from].Contents())
              else old(bufs[op.from].Contents())[Share(old(bufs[op.from].Contents()), op)..]
      ensures bufs[op.to].Owed() + bufs[op.from].Owed() == old(bufs[op.to].Owed()) + old(bufs[op.from].Owed())
      ensures arena.destroyed == old(arena.destroyed)
      ensures forall i | 0 <= i < |bufs| && i != op.to && i != op.from :: bufs[i].Valid(arena) && Untouched(bufs[i])
    {
      hide Buffer.Linked, Buffer.Loaded, Buffer.NoneEmpty, Flatten, Tokens, Arena.Valid, Sum, Share;
      var b, src := bufs[op.to], bufs[op.from];
      ghost var home := arena.home;
      OutOfReach(b);
      OutOfReach(src);
      Pair(arena, b, src, op);
      forall i | 0 <= i < |bufs| && i != op.to && i != op.from
        ensures bufs[i].Valid(arena)
      {
        bufs[i].StillValid(arena, home);
      }
    }

    // The texts and the callbacks owed, after a change to buffers k and m.
    ghost method RecordTwo(k: nat, m: nat)
      requires this !in reach && Sound() && k < |texts| == |owed| == |bufs| && m < |bufs| && k != m
      requires forall i | 0 <= i < |bufs| && i != k && i != m :: texts[i] == bufs[i].Contents() && owed[i] == bufs[i].Owed()
      requires multiset(arena.destroyed) + Sum(owed) == given && bufs[k].Owed() + bufs[m].Owed() == owed[k] + owed[m]
      modifies this`texts, this`owed
      ensures Valid() && texts == old(texts)[k := bufs[k].Contents()][m := bufs[m].Contents()]
    {
      hide Sound, Flatten, Tokens, Sum;
      var text, text', left, left' := bufs[k].Contents(), bufs[m].Contents(), bufs[k].Owed(), bufs[m].Owed();
      SumUpdate(owed, k, left);
      SumUpdate(owed[k := left], m, left');
      Exchange(Sum(owed), Sum(owed[k := left]), Sum(owed[k := left][m := left']), owed[k], owed[m], left, left');
      texts, owed := texts[k := text][m := text'], owed[k := left][m := left'];
    }

    method Two(op: Op)
      requires Valid() && op.Fits(|bufs|) && op.Moves()
      modifies this`texts, this`owed, this`given, this`reach, this`memory, reach
      ensures Valid() && texts == Apply(old(texts), op) && given == old(given)
      ensures fresh(reach - old(reach))
    {
      hide Buffer.Linked, Buffer.Loaded, Buffer.NoneEmpty, Flatten, Tokens, Arena.Valid, Sum, Share, Apply;
      AlterTwo(op);
      assert Separate();
      Enclose(op.to, op.from);
      RecordTwo(op.to, op.from);
      ApplyMove(old(texts), op, texts);
    }

    // Any run, and so every interleaving.
    method Run(ops: seq<Op>) returns (outs: seq<seq<byte>>)
      requires Valid() && forall k | 0 <= k < |ops| :: ops[k].Fits(|bufs|)
      modifies this`texts, this`owed, this`given, this`reach, this`memory, reach
      ensures Valid() && |old(texts)| == |bufs| && texts == ApplyAll(old(texts), ops)
      ensures outs == AllAnswers(old(texts), ops) && given == old(given) + AllGiven(ops)
      ensures fresh(reach - old(reach))
    {
      hide Sound, Apply, Sum, ApplyAll, AllAnswers, AllGiven;
      outs := [];
      assert ops[..0] == [];
      NoSteps(texts);
      for k := 0 to |ops|
        invariant Valid() && |texts| == |bufs| && texts == ApplyAll(old(texts), ops[..k])
        invariant outs == AllAnswers(old(texts), ops[..k]) && given == old(given) + AllGiven(ops[..k])
        invariant fresh(reach - old(reach))
      {
        OneMore(old(texts), ops, k);
        var out := Step(ops[k]);
        outs := outs + [out];
      }
      assert ops[..|ops|] == ops;
    }

    // What Valid means for fragments: none is in two buffers, or in a buffer and the pool.
    lemma NothingShared(i: nat, f: Fragment)
      requires Valid() && i < |bufs| && f in bufs[i].frags
      ensures f !in arena.recycled
      ensures forall j | 0 <= j < |bufs| && j != i :: f !in bufs[j].frags
    {
    }

    // When every buffer is empty, exactly the callbacks that were given have run.
    lemma AllRun()
      requires Valid() && forall i | 0 <= i < |texts| :: texts[i] == []
      ensures multiset(arena.destroyed) == given
    {
      forall i | 0 <= i < |bufs|
        ensures owed[i] == multiset{}
      {
        hide Buffer.Linked, Arena.Valid;
        bufs[i].EmptyIsNull(arena);
        bufs[i].NothingOwed(arena.home);
      }
      SumOfNone(owed);
    }
  }

  lemma {:induction false} SumOfNone(owed: seq<multiset<Token>>)
    requires forall i | 0 <= i < |owed| :: owed[i] == multiset{}
    ensures Sum(owed) == multiset{}
  {
    if owed != [] {
      SumOfNone(owed[1..]);
    }
  }

  ghost predicate Blank(arena: Arena, b: Buffer)
    reads b, b.mine, b.frags, set f | f in b.frags :: f.buf
    reads arena, arena.spare
  {
    && b.Valid(arena) && b.frags == [] && b.mine == {} && b.chunks == {}
    && b.Contents() == [] && b.Owed() == multiset{}
  }

  lemma BlankTexts(arena: Arena, bufs: seq<Buffer>)
    requires forall i | 0 <= i < |bufs| :: Blank(arena, bufs[i])
    ensures forall i | 0 <= i < |bufs| :: bufs[i].Contents() == [] && bufs[i].Owed() == multiset{}
  {
    hide Buffer.Valid, Arena.Valid, Flatten, Tokens;
  }

  lemma BlanksApart(arena: Arena, bufs: seq<Buffer>)
    requires forall i | 0 <= i < |bufs| :: Blank(arena, bufs[i])
    requires forall i, j | 0 <= i < |bufs| && 0 <= j < |bufs| && i != j :: bufs[i] != bufs[j]
    ensures forall i, j | 0 <= i < |bufs| && 0 <= j < |bufs| && i != j :: bufs[i].Apart(bufs[j])
    ensures forall i | 0 <= i < |bufs| ::
      && bufs[i].Valid(arena) && bufs[i].frags == [] && bufs[i].mine == {} && bufs[i].chunks == {}
      && bufs[i].Contents() == [] && bufs[i].Owed() == multiset{}
  {
    hide Buffer.Valid, Arena.Valid, Flatten, Tokens;
    forall i, j | 0 <= i < |bufs| && 0 <= j < |bufs| && i != j
      ensures bufs[i].Apart(bufs[j])
    {
      assert Blank(arena, bufs[i]) && Blank(arena, bufs[j]);
    }
  }

  // A pool and n empty buffers.
  method Start(n: nat) returns (w: Workspace)
    ensures w.Valid() && |w.texts| == |w.bufs| == n && (forall i | 0 <= i < n :: w.texts[i] == []) && w.given == multiset{}
    ensures fresh(w) && fresh(w.reach)
  {
    hide Buffer.Valid, Arena.Valid, Flatten, Tokens;
    var arena := new Arena();
    var bufs: seq<Buffer> := [];
    for k := 0 to n
      invariant |bufs| == k && arena.Valid() && fresh(arena)
      invariant arena.destroyed == [] && arena.spare == {} && arena.chunks == {}
      invariant forall i | 0 <= i < k :: Blank(arena, bufs[i]) && fresh(bufs[i])
      invariant forall i, j | 0 <= i < k && 0 <= j < k && i != j :: bufs[i] != bufs[j]
    {
      var b := new Buffer(arena);
      bufs := bufs + [b];
    }
    w := new Workspace(arena, bufs);
  }
}
