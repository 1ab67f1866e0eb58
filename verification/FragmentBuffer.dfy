// The chain-of-fragments byte buffer of src/yc-buffer.c.
module FragmentBuffer {
  import opened Basics
  import opened BufferPieces

  // BUF_CHUNK_SIZE less the fragment header that shares the chunk.
  const NATIVE_CAPACITY := 32768 - 48

  const MAX_RECYCLED := 16

  // Which native chunk belongs to which fragment.
  type Home = map<array<byte>, Fragment>

  class Fragment {
    var next: Fragment?
    const buf: array<byte>
    const maxSize: nat
    var start: nat
    var length: nat
    const isForeign: bool
    const destroy: Option<Token>

    constructor Native()
      ensures next == null && start == 0 && length == 0
      ensures !isForeign && maxSize == buf.Length == 32768 - 48 && fresh(buf)
    {
      next := null;
      buf := new byte[NATIVE_CAPACITY](_ => 0);
      maxSize := NATIVE_CAPACITY;
      start, length := 0, 0;
      isForeign, destroy := false, None;
    }

    constructor Foreign(data: array<byte>, length: nat, destroy: Option<Token>)
      ensures next == null && start == 0 && this.length == maxSize == length
      ensures isForeign && buf == data && this.destroy == destroy
    {
      next := null;
      buf, maxSize := data, length;
      start, this.length := 0, length;
      isForeign, this.destroy := true, destroy;
    }

    function Avail(): int
      reads this
    {
      maxSize - start - length
    }

    // The fragment's live bytes are p.data.
    ghost predicate Holds(p: Piece)
      reads this`start, this`length, buf
    {
      && start + length <= maxSize <= buf.Length
      && p.data == buf[start..start + length]
      && p.token == (if isForeign then destroy else None)
      && (isForeign ==> start + length == maxSize)
    }

    // Only native chunks are ever written, and each belongs to one fragment.
    ghost predicate AtHome(home: Home) {
      if isForeign then buf !in home
      else buf in home && home[buf] == this && maxSize == buf.Length == NATIVE_CAPACITY
    }
  }

  // The element after fs[i], or null at the end.
  ghost function Follower(fs: seq<Fragment>, i: int): Fragment? {
    if 0 <= i + 1 < |fs| then fs[i + 1] else null
  }

  // The globals recycling_stack and num_recycled, with the record of the
  // destroy callbacks that have been run.
  class Arena {
    var stack: Fragment?
    var numRecycled: nat
    var destroyed: seq<Token>
    ghost var recycled: seq<Fragment>
    ghost var home: Home
    ghost var spare: set<Fragment>
    ghost var chunks: set<array<byte>>

    ghost predicate Valid()
      reads this`stack, this`numRecycled, this`recycled, this`home, this`spare, this`chunks, spare`next
    {
      && numRecycled == |recycled| <= MAX_RECYCLED
      && stack == (if recycled == [] then null else recycled[0])
      && chunks <= home.Keys
      && (forall i | 0 <= i < |recycled| ::
            && recycled[i] in spare && recycled[i].buf in chunks
            && !recycled[i].isForeign && recycled[i].AtHome(home)
            && recycled[i].next == Follower(recycled, i))
      && (forall i, j | 0 <= i < j < |recycled| :: recycled[i] != recycled[j])
    }

    // Chunks are never forgotten, and only newly allocated ones are added.
    twostate predicate Grew()
      reads this
    {
      && (forall a | a in old(home) :: a in home && home[a] == old(home[a]))
      && (forall a | a in home && a !in old(home) :: fresh(a))
    }

    constructor ()
      ensures Valid() && destroyed == [] && home == map[] && spare == {} && chunks == {}
    {
      stack, numRecycled, destroyed := null, 0, [];
      recycled, home, spare, chunks := [], map[], {}, {};
    }

    // new_native_fragment: a recycled fragment if there is one.
    method NewNative() returns (f: Fragment)
      requires Valid()
      modifies this, spare
      ensures Valid() && Grew() && f.AtHome(home) && destroyed == old(destroyed)
      ensures !f.isForeign && f.next == null && f.start == 0 && f.length == 0
      ensures f !in spare && f.buf !in chunks && spare <= old(spare) && chunks <= old(chunks)
      ensures if f in old(spare) then f.buf in old(chunks) else fresh(f) && fresh(f.buf)
    {
      if stack != null {
        RestOfStack();
        f := stack;
        stack := stack.next;
        numRecycled := numRecycled - 1;
        recycled := recycled[1..];
        spare, chunks := spare - {f}, chunks - {f.buf};
      } else {
        f := new Fragment.Native();
        home := home[f.buf := f];
      }
      f.start, f.length, f.next := 0, 0, null;
    }

    lemma RestOfStack()
      requires Valid() && recycled != []
      ensures var f, rest := recycled[0], recycled[1..];
        && f.next == (if rest == [] then null else rest[0]) && f in spare && f.buf in chunks
        && forall i | 0 <= i < |rest| ::
             && rest[i] != f && rest[i].buf != f.buf && rest[i].next == Follower(rest, i)
             && rest[i] in spare && rest[i].buf in chunks && !rest[i].isForeign && rest[i].AtHome(home)
    {
      var rest := recycled[1..];
      assert forall i | 0 <= i < |rest| :: rest[i] == recycled[i + 1] && Follower(rest, i) == Follower(recycled, i + 1);
    }

    // recycle: runs a foreign fragment's callback; keeps up to MAX_RECYCLED native ones.
    method Recycle(f: Fragment)
      requires Valid() && f !in spare && f.AtHome(home)
      modifies this, f
      ensures Valid() && home == old(home)
      ensures destroyed == old(destroyed) + (if f.isForeign && f.destroy.Some? then [f.destroy.value] else [])
      ensures old(spare) <= spare <= old(spare) + {f}
      ensures f in spare <==> !f.isForeign && old(numRecycled) < 16
      ensures f in spare ==> stack == f && numRecycled == old(numRecycled) + 1
      ensures old(chunks) <= chunks <= old(chunks) + (if f.isForeign then {} else {f.buf})
    {
      assert forall i | 0 <= i < |recycled| :: recycled[i] != f;
      if f.isForeign {
        if f.destroy.Some? {
          destroyed := destroyed + [f.destroy.value];
        }
        return;
      }
      if numRecycled >= MAX_RECYCLED {
        return;
      }
      f.next := stack;
      stack := f;
      numRecycled := numRecycled + 1;
      recycled := [f] + recycled;
      spare, chunks := spare + {f}, chunks + {f.buf};
    }
  }

  class Buffer {
    var first: Fragment?
    var last: Fragment?
    var size: nat
    ghost var frags: seq<Fragment>
    ghost var pieces: seq<Piece>
    ghost var mine: set<Fragment>
    ghost var chunks: set<array<byte>>

    // The fragments are chained in order ...
    ghost predicate Linked(home: Home)
      reads this`first, this`last, this`frags, this`mine, this`chunks, mine`next
    {
      && chunks <= home.Keys
      && (forall i | 0 <= i < |frags| ::
            && frags[i] in mine && (!frags[i].isForeign ==> frags[i].buf in chunks)
            && frags[i].AtHome(home) && frags[i].next == Follower(frags, i))
      && (forall i, j | 0 <= i < j < |frags| :: frags[i] != frags[j])
      && (if frags == [] then first == null && last == null
          else first == frags[0] && last == frags[|frags| - 1])
    }

    // ... and each holds its piece.
    ghost predicate Loaded()
      reads this`frags, this`pieces, frags`start, frags`length, set f | f in frags :: f.buf
    {
      |frags| == |pieces| && forall i | 0 <= i < |frags| :: frags[i].Holds(pieces[i])
    }

    ghost predicate Chain(arena: Arena)
      reads this`first, this`last, this`frags, this`pieces, this`mine, this`chunks
      reads mine`next, frags`start, frags`length, set f | f in frags :: f.buf
      reads arena`stack, arena`numRecycled, arena`recycled, arena`home, arena`spare, arena`chunks, arena.spare`next
    {
      arena.Valid() && Linked(arena.home) && Loaded() && mine !! arena.spare && chunks !! arena.chunks
    }

    ghost predicate NoneEmpty()
      reads this`pieces
    {
      forall i | 0 <= i < |pieces| :: pieces[i].data != []
    }

    ghost predicate Valid(arena: Arena)
      reads this, mine, frags, set f | f in frags :: f.buf
      reads arena, arena.spare
    {
      Chain(arena) && NoneEmpty() && size == |Contents()|
    }

    ghost function Contents(): seq<byte>
      reads this`pieces
    {
      Flatten(pieces)
    }

    // The destroy callbacks that the buffer still owes.
    ghost function Owed(): multiset<Token>
      reads this`pieces
    {
      Tokens(pieces)
    }

    // An operation takes nothing but what was its own, the arena's or did not exist.
    twostate predicate Frame(arena: Arena)
      reads this, arena
    {
      && fresh(mine + arena.spare - old(mine + arena.spare))
      && fresh(chunks + arena.chunks - old(chunks + arena.chunks))
      && arena.Grew()
    }

    // The same for two buffers at once.
    twostate predicate Frame2(arena: Arena, src: Buffer)
      reads this, src, arena
    {
      && fresh(mine + src.mine + arena.spare - old(mine + src.mine + arena.spare))
      && fresh(chunks + src.chunks + arena.chunks - old(chunks + src.chunks + arena.chunks))
      && arena.Grew()
    }

    // The parts of Valid, and the way back.
    lemma Parts(arena: Arena)
      requires Valid(arena)
      ensures arena.Valid() && Linked(arena.home) && Loaded() && mine !! arena.spare && chunks !! arena.chunks
      ensures Chain(arena) && NoneEmpty() && size == |Contents()|
    {
    }

    lemma ChainParts(arena: Arena)
      requires Chain(arena)
      ensures arena.Valid() && Linked(arena.home) && Loaded() && mine !! arena.spare && chunks !! arena.chunks
    {
    }

    lemma ChainWhole(arena: Arena)
      requires arena.Valid() && Linked(arena.home) && Loaded() && mine !! arena.spare && chunks !! arena.chunks
      ensures Chain(arena)
    {
    }

    lemma Whole(arena: Arena)
      requires Chain(arena) && NoneEmpty() && size == |Contents()|
      ensures Valid(arena)
    {
    }

    constructor (arena: Arena)
      requires arena.Valid()
      ensures Valid(arena) && Contents() == [] && Owed() == multiset{} && mine == {} && chunks == {} && frags == []
    {
      first, last, size := null, null, 0;
      frags, pieces, mine, chunks := [], [], {}, {};
    }

    // ---- appending ----

    // Links a fragment in at the end.
    method LinkLast(f: Fragment, ghost home: Home)
      requires Linked(home) && f !in mine && f.next == null && f.AtHome(home)
      modifies this`first, this`last, this`frags, this`mine, this`chunks, mine`next
      ensures Linked(home) && frags == old(frags) + [f] && last == f
      ensures mine == old(mine) + {f} && chunks == old(chunks) + if f.isForeign then {} else {f.buf}
    {
      if last == null {
        first := f;
      } else {
        last.next := f;
      }
      last := f;
      FollowersOfAppend(frags, f);
      frags, mine := frags + [f], mine + {f};
      chunks := chunks + if f.isForeign then {} else {f.buf};
    }

    method Link(f: Fragment, ghost p: Piece, ghost home: Home)
      requires Linked(home) && Loaded() && f !in mine && f.next == null && f.AtHome(home) && f.Holds(p)
      modifies this`first, this`last, this`frags, this`pieces, this`mine, this`chunks, mine`next
      ensures Linked(home) && Loaded() && last == f
      ensures frags == old(frags) + [f] && pieces == old(pieces) + [p]
      ensures mine == old(mine) + {f} && chunks == old(chunks) + if f.isForeign then {} else {f.buf}
    {
      hide Fragment.Holds, Fragment.AtHome, Linked;
      LinkLast(f, home);
      pieces := pieces + [p];
    }

    lemma FollowersOfAppend(fs: seq<Fragment>, f: Fragment)
      ensures forall i | 0 <= i < |fs| - 1 :: Follower(fs + [f], i) == Follower(fs, i)
      ensures fs != [] ==> Follower(fs + [f], |fs| - 1) == f
      ensures Follower(fs + [f], |fs|) == null
    {
    }

    lemma StillLinked(home: Home, home': Home)
      requires Linked(home)
      requires forall a | a in home :: a in home' && home'[a] == home[a]
      requires forall a | a in home' && a !in home :: forall f | f in mine :: f.buf != a
      ensures Linked(home')
    {
      assert chunks <= home'.Keys;
    }

    // The same for the whole of another buffer.
    lemma StillValid(arena: Arena, home: Home)
      requires arena.Valid() && Linked(home) && Loaded() && NoneEmpty() && size == |Contents()|
      requires mine !! arena.spare && chunks !! arena.chunks
      requires forall a | a in home :: a in arena.home && arena.home[a] == home[a]
      requires forall a | a in arena.home && a !in home :: forall f | f in mine :: f.buf != a
      ensures Valid(arena)
    {
      hide Linked, Loaded, NoneEmpty, Flatten, Arena.Valid;
      StillLinked(home, arena.home);
    }

    // Takes a fragment from the arena and links it in at the end, still empty.
    method AddNative(arena: Arena)
      requires Chain(arena)
      modifies this`first, this`last, this`frags, this`pieces, this`mine, this`chunks, mine`next
      modifies arena, arena.spare
      ensures Chain(arena) && Frame(arena) && arena.destroyed == old(arena.destroyed)
      ensures pieces == old(pieces) + [Piece([], None)]
      ensures last != null && !last.isForeign && last.Avail() == NATIVE_CAPACITY
    {
      hide Fragment.Holds, Fragment.AtHome, Arena.Valid, Arena.Grew, Linked, Loaded, Chain, Fragment.Avail;
      ChainParts(arena);
      var f := TakeNative(arena);
      LinkNative(arena, f);
    }

    method LinkNative(arena: Arena, f: Fragment)
      requires arena.Valid() && Linked(arena.home) && Loaded() && mine !! arena.spare && chunks !! arena.chunks
      requires f !in mine && f.next == null && f.AtHome(arena.home) && f.start == 0 && f.length == 0 && !f.isForeign
      requires mine + {f} !! arena.spare && chunks + {f.buf} !! arena.chunks
      modifies this`first, this`last, this`frags, this`pieces, this`mine, this`chunks, mine`next
      ensures Chain(arena) && mine == old(mine) + {f} && chunks == old(chunks) + {f.buf}
      ensures pieces == old(pieces) + [Piece([], None)]
      ensures last != null && !last.isForeign && last.Avail() == NATIVE_CAPACITY
    {
      hide Fragment.Holds, Fragment.AtHome, Arena.Valid, Linked, Loaded, Chain;
      EmptyHolds(f, arena.home);
      Link(f, Piece([], None), arena.home);
      ChainWhole(arena);
    }

    // A fragment from the arena, which the chain may take in.
    method TakeNative(arena: Arena) returns (f: Fragment)
      requires arena.Valid() && Linked(arena.home) && mine !! arena.spare && chunks !! arena.chunks
      modifies arena, arena.spare
      ensures arena.Valid() && arena.Grew() && arena.destroyed == old(arena.destroyed) && Linked(arena.home)
      ensures f !in mine && f.next == null && f.AtHome(arena.home) && f.start == 0 && f.length == 0 && !f.isForeign
      ensures mine + {f} !! arena.spare && chunks + {f.buf} !! arena.chunks
      ensures fresh({f} + arena.spare - old(arena.spare)) && fresh({f.buf} + arena.chunks - old(arena.chunks))
    {
      hide Fragment.Holds, Fragment.AtHome, Arena.Valid, Linked, Loaded, Chain;
      ghost var home := arena.home;
      f := arena.NewNative();
      StillLinked(home, arena.home);
    }

    lemma EmptyHolds(f: Fragment, home: Home)
      requires f.start == 0 && f.length == 0 && !f.isForeign && f.AtHome(home)
      ensures f.Holds(Piece([], None)) && f.Avail() == NATIVE_CAPACITY
    {
    }

    // memcpy to the end of the last fragment.
    method Fill(data: seq<byte>, ghost home: Home)
      requires Linked(home) && Loaded() && last != null && !last.isForeign && |data| <= last.Avail()
      modifies this`pieces, last.buf, last`length
      ensures Loaded()
      ensures var k := |old(pieces)| - 1; var p := old(pieces)[k];
        k >= 0 && pieces == old(pieces)[k := p.(data := p.data + data)]
      ensures last.length == old(last.length) + |data|
    {
      ghost var k := |frags| - 1;
      OthersApart(home);
      hide Fragment.Holds, Fragment.AtHome, Linked;
      ghost var was, more := pieces, pieces[k].(data := pieces[k].data + data);
      FillFragment(last, data, pieces[k]);
      pieces := was[k := more];
      forall i | 0 <= i < |frags|
        ensures frags[i].Holds(pieces[i])
      {
        assert old(frags[i].Holds(was[i]));
        assert pieces[i] == if i < k then was[i] else more;
      }
    }

    lemma OthersApart(home: Home)
      requires Linked(home) && frags != [] && !last.isForeign
      ensures var k := |frags| - 1; forall i | 0 <= i < k :: frags[i] != last && frags[i].buf != last.buf
    {
    }

    method FillFragment(f: Fragment, data: seq<byte>, ghost p: Piece)
      requires f.Holds(p) && !f.isForeign && |data| <= f.Avail()
      modifies f.buf, f`length
      ensures f.Holds(p.(data := p.data + data)) && f.length == old(f.length) + |data|
    {
      CopyIn(f.buf, f.start + f.length, data);
      f.length := f.length + |data|;
    }

    lemma LastRoom(home: Home)
      requires Linked(home) && Loaded() && last != null
      ensures frags != [] && last in mine && (!last.isForeign ==> last.buf in chunks)
      ensures last.Avail() >= 0 && (last.isForeign ==> last.Avail() == 0)
      ensures last.length == |pieces[|pieces| - 1].data|
    {
      assert frags[|frags| - 1].Holds(pieces[|frags| - 1]);
    }

    // While an append is under way the last fragment may be empty, but then it has room.
    ghost predicate Growing()
      reads this`pieces, this`last, last
    {
      && (forall i | 0 <= i < |pieces| - 1 :: pieces[i].data != [])
      && (pieces != [] && pieces[|pieces| - 1].data == [] ==> last != null && last.Avail() > 0)
    }

    // Finds room at the end.  A full last fragment gets a new one linked
    // behind it, but the room counted is still the full one's: none.
    method MakeRoom(arena: Arena) returns (avail: int)
      requires Chain(arena) && Growing()
      modifies this`first, this`last, this`frags, this`pieces, this`mine, this`chunks, mine`next
      modifies arena, arena.spare
      ensures Chain(arena) && Frame(arena) && arena.destroyed == old(arena.destroyed) && Growing()
      ensures last != null && !last.isForeign && 0 <= avail <= last.Avail() && last.Avail() > 0
      ensures old(last) != null && old(last.Avail()) > 0 ==> avail > 0 && last == old(last)
      ensures Contents() == old(Contents()) && Owed() == old(Owed())
    {
      hide Fragment.Holds, Fragment.AtHome, Arena.Valid, Linked, Loaded, Flatten, Tokens;
      LastIsNull(arena.home);
      FlattenLast(pieces, Piece([], None));
      if last == null {
        AddNative(arena);
        avail := last.Avail();
      } else {
        LastRoom(arena.home);
        avail := last.Avail();
        if avail <= 0 {
          AddNative(arena);
        }
      }
    }

    lemma LastIsNull(home: Home)
      requires Linked(home) && Loaded()
      ensures last == null <==> pieces == []
    {
    }

    // One round of the copying loops.
    method AppendRound(arena: Arena, data: seq<byte>) returns (taken: nat)
      requires Chain(arena) && Growing() && data != []
      modifies this`first, this`last, this`frags, this`pieces, this`mine, this`chunks, mine, chunks
      modifies arena, arena.spare, arena.chunks
      ensures Chain(arena) && Frame(arena) && arena.destroyed == old(arena.destroyed) && Growing()
      ensures taken <= |data| && Contents() == old(Contents()) + data[..taken] && Owed() == old(Owed())
      ensures taken > 0 ==> NoneEmpty()
      ensures taken == 0 ==> last != null && last.Avail() > 0
      ensures old(last) != null && old(last.Avail()) > 0 ==> taken > 0
    {
      hide Fragment.Holds, Fragment.AtHome, Arena.Valid, Linked, Loaded, Flatten, Tokens;
      var avail := MakeRoom(arena);
      if avail > |data| {
        avail := |data|;
      }
      taken := avail;
      LastRoom(arena.home);
      LastIsNull(arena.home);
      FlattenExtend(pieces, data[..taken]);
      Fill(data[..taken], arena.home);
    }

    method Append(arena: Arena, data: seq<byte>)
      requires Valid(arena)
      modifies this, mine, chunks, arena, arena.spare, arena.chunks
      ensures Valid(arena) && Frame(arena) && arena.destroyed == old(arena.destroyed)
      ensures Contents() == old(Contents()) + data && Owed() == old(Owed())
    {
      hide Flatten, Tokens, Linked, Loaded, Arena.Valid;
      size := size + |data|;
      var rest := data;
      while |rest| > 0
        invariant Chain(arena) && Frame(arena) && arena.destroyed == old(arena.destroyed)
        invariant Growing() && (rest == [] ==> NoneEmpty())
        invariant size == |Contents()| + |rest|
        invariant Contents() + rest == old(Contents()) + data && Owed() == old(Owed())
        decreases |rest|, if last != null && last.Avail() > 0 then 0 else 1
      {
        var taken := AppendRound(arena, rest);
        assert rest[..taken] + rest[taken..] == rest;
        rest := rest[taken..];
      }
    }

    method AppendRepeatedByte(arena: Arena, count: nat, value: byte)
      requires Valid(arena)
      modifies this, mine, chunks, arena, arena.spare, arena.chunks
      ensures Valid(arena) && Frame(arena) && arena.destroyed == old(arena.destroyed)
      ensures Contents() == old(Contents()) + seq(count, _ => value) && Owed() == old(Owed())
    {
      hide Flatten, Tokens, Linked, Loaded, Arena.Valid;
      size := size + count;
      var left := count;
      ghost var all := seq(count, _ => value);
      while left > 0
        invariant 0 <= left <= count
        invariant Chain(arena) && Frame(arena) && arena.destroyed == old(arena.destroyed)
        invariant Growing() && (left == 0 ==> NoneEmpty())
        invariant size == |Contents()| + left
        invariant Contents() == old(Contents()) + all[..count - left] && Owed() == old(Owed())
        decreases left, if last != null && last.Avail() > 0 then 0 else 1
      {
        var taken := AppendRound(arena, seq(left, _ => value));
        assert all[..count - left] + seq(left, _ => value)[..taken] == all[..count - (left - taken)];
        left := left - taken;
      }
    }

    // The macro yc_buffer_append_zeros passes its two arguments in the wrong
    // order, and so asks for no bytes at all.
    method AppendZeros(arena: Arena, count: byte)
      requires Valid(arena)
      modifies this, mine, chunks, arena, arena.spare, arena.chunks
      ensures Valid(arena) && Frame(arena) && Contents() == old(Contents())
    {
      AppendRepeatedByte(arena, 0, count);
    }

    method AppendSmall(arena: Arena, data: seq<byte>)
      requires Valid(arena)
      modifies this, mine, chunks, arena, arena.spare, arena.chunks
      ensures Valid(arena) && Frame(arena) && arena.destroyed == old(arena.destroyed)
      ensures Contents() == old(Contents()) + data && Owed() == old(Owed())
    {
      hide Flatten, Tokens, Linked, Loaded, Arena.Valid;
      var f := last;
      if f != null && !f.isForeign && f.start + f.length + |data| <= f.maxSize {
        LastIsNull(arena.home);
        LastRoom(arena.home);
        FlattenExtend(pieces, data);
        size := size + |data|;
        Fill(data, arena.home);
      } else {
        Append(arena, data);
      }
    }

    method AppendByte(arena: Arena, value: byte)
      requires Valid(arena)
      modifies this, mine, chunks, arena, arena.spare, arena.chunks
      ensures Valid(arena) && Frame(arena) && arena.destroyed == old(arena.destroyed)
      ensures Contents() == old(Contents()) + [value] && Owed() == old(Owed())
    {
      hide Flatten, Tokens, Linked, Loaded, Arena.Valid;
      var f := last;
      if f != null && !f.isForeign && f.start + f.length < f.maxSize {
        LastIsNull(arena.home);
        LastRoom(arena.home);
        FlattenExtend(pieces, [value]);
        Fill([value], arena.home);
        size := size + 1;
      } else {
        Append(arena, [value]);
      }
    }

    // Memory of the caller's, taken without copying; `destroy` is owed for it.
    method AppendForeign(arena: Arena, data: array<byte>, length: nat, destroy: Option<Token>)
      requires Valid(arena) && length <= data.Length && data !in arena.home
      modifies this, mine, arena
      ensures Valid(arena) && Frame(arena)
      ensures Contents() == old(Contents()) + data[..length]
      ensures multiset(arena.destroyed) + Owed()
           == multiset(old(arena.destroyed)) + old(Owed()) + TokenOf(Piece([], destroy))
      ensures length > 0 ==> arena.destroyed == old(arena.destroyed)
    {
      hide Flatten, Tokens, Linked, Loaded, Arena.Valid;
      if length == 0 {
        if destroy.Some? {
          arena.destroyed := arena.destroyed + [destroy.value];
        }
        return;
      }
      var f := new Fragment.Foreign(data, length, destroy);
      ghost var p := Piece(data[..length], destroy);
      FlattenLast(pieces, p);
      Link(f, p, arena.home);
      size := size + length;
    }

    // ---- consuming ----

    lemma FirstFragment(home: Home)
      requires Linked(home) && Loaded() && first != null
      ensures frags != [] && pieces != [] && first == frags[0] && first in mine && first.AtHome(home)
      ensures !first.isForeign ==> first.buf in chunks
      ensures first.start + first.length <= first.maxSize <= first.buf.Length
      ensures first.buf[first.start..first.start + first.length] == pieces[0].data
      ensures first.length == |pieces[0].data|
      ensures TokenOf(pieces[0]) == if first.isForeign && first.destroy.Some? then multiset{first.destroy.value} else multiset{}
      ensures forall i | 0 < i < |frags| :: frags[i] != first
    {
      assert frags[0].Holds(pieces[0]);
    }

    // Unlinks the first fragment.
    method UnlinkFirst(ghost home: Home) returns (f: Fragment)
      requires Linked(home) && Loaded() && first != null
      modifies this`first, this`last, this`frags, this`pieces, this`mine, this`chunks
      ensures Linked(home) && Loaded() && f == old(first)
      ensures f !in mine && mine == old(mine) - {f}
      ensures chunks == old(chunks) - if f.isForeign then {} else {f.buf}
      ensures frags == old(frags)[1..] && pieces == old(pieces)[1..]
    {
      hide Linked, Loaded, Fragment.AtHome, Fragment.Holds, Follower;
      f := first;
      RestOfChain(home);
      first := f.next;
      if first == null {
        last := null;
      }
      ghost var rest := frags[1..];
      frags, pieces := rest, pieces[1..];
      mine := mine - {f};
      chunks := chunks - if f.isForeign then {} else {f.buf};
      FoldChain(rest, home);
    }

    lemma RestOfChain(home: Home)
      requires Linked(home) && Loaded() && first != null
      ensures |frags| == |pieces| > 0 && first == frags[0] && chunks <= home.Keys
      ensures var f, rest := first, frags[1..];
        && f.next == (if rest == [] then null else rest[0]) && (rest != [] ==> last == rest[|rest| - 1])
        && (forall i | 0 <= i < |rest| ::
              && rest[i] != f && rest[i] in mine && rest[i].AtHome(home) && rest[i].next == Follower(rest, i)
              && (!rest[i].isForeign ==> rest[i].buf in chunks)
              && (!f.isForeign ==> rest[i].buf != f.buf))
        && (forall i | 0 <= i < |rest| :: rest[i].Holds(pieces[1..][i]))
        && (forall i, j | 0 <= i < j < |rest| :: rest[i] != rest[j])
    {
      var rest := frags[1..];
      assert forall i | 0 <= i < |rest| :: rest[i] == frags[i + 1];
      assert forall i | 0 <= i < |rest| :: Follower(rest, i) == Follower(frags, i + 1);
      assert forall i | 0 <= i < |rest| :: pieces[1..][i] == pieces[i + 1];
    }

    // The definitions of Linked and Loaded, in the direction that concludes them.
    lemma FoldChain(fs: seq<Fragment>, home: Home)
      requires fs == frags && |fs| == |pieces| && chunks <= home.Keys
      requires forall i | 0 <= i < |fs| ::
        && fs[i] in mine && (!fs[i].isForeign ==> fs[i].buf in chunks)
        && fs[i].AtHome(home) && fs[i].next == Follower(fs, i)
      requires forall i, j | 0 <= i < j < |fs| :: fs[i] != fs[j]
      requires if fs == [] then first == null && last == null else first == fs[0] && last == fs[|fs| - 1]
      requires forall i | 0 <= i < |fs| :: fs[i].Holds(pieces[i])
      ensures Linked(home) && Loaded()
    {
    }

    // Unlinks and recycles the first fragment.
    method DropFirst(arena: Arena)
      requires Chain(arena) && NoneEmpty() && first != null
      modifies this`first, this`last, this`frags, this`pieces, this`mine, this`chunks, mine, arena
      ensures Chain(arena) && NoneEmpty() && Frame(arena) && mine <= old(mine)
      ensures old(pieces) != [] && pieces == old(pieces)[1..]
      ensures multiset(arena.destroyed) == multiset(old(arena.destroyed)) + TokenOf(old(pieces[0]))
      ensures arena.destroyed == old(arena.destroyed) + if old(pieces[0]).token.Some? then [old(pieces[0]).token.value] else []
    {
      hide Linked, Loaded, Arena.Valid;
      FirstFragment(arena.home);
      var f := UnlinkFirst(arena.home);
      arena.Recycle(f);
    }

    // Takes n bytes off the front of the first fragment.
    method TrimFirst(n: nat, ghost home: Home)
      requires Linked(home) && Loaded() && first != null && n < first.length
      modifies this`pieces, first`start, first`length
      ensures Loaded() && pieces == old(pieces)[0 := old(pieces)[0].(data := old(pieces)[0].data[n..])]
    {
      hide Linked, Fragment.Holds;
      FirstFragment(home);
      TrimFragment(first, n, pieces[0]);
      pieces := pieces[0 := pieces[0].(data := pieces[0].data[n..])];
    }

    method TrimFragment(f: Fragment, n: nat, ghost p: Piece)
      requires f.Holds(p) && n < f.length
      modifies f`start, f`length
      ensures n <= |p.data| && f.Holds(p.(data := p.data[n..]))
    {
      assert f.buf[f.start..f.start + f.length][n..] == f.buf[f.start + n..f.start + f.length];
      f.length := f.length - n;
      f.start := f.start + n;
    }

    // One round of the loops of read and discard.
    method TakeRound(arena: Arena, max: nat) returns (data: seq<byte>)
      requires Chain(arena) && NoneEmpty() && first != null && max > 0
      modifies this`first, this`last, this`frags, this`pieces, this`mine, this`chunks, mine, arena
      ensures Chain(arena) && NoneEmpty() && Frame(arena) && mine <= old(mine)
      ensures 0 < |data| <= max && old(Contents()) == data + Contents()
      ensures |data| == max || |frags| < old(|frags|)
      ensures multiset(arena.destroyed) + Owed() == multiset(old(arena.destroyed)) + old(Owed())
    {
      hide Flatten, Tokens, Linked, Loaded, Arena.Valid, TokenOf;
      FirstFragment(arena.home);
      FlattenFirst(pieces);
      if first.length <= max {
        data := first.buf[first.start..first.start + first.length];
        FragmentsAndPieces();
        DropFirst(arena);
        FragmentsAndPieces();
      } else {
        data := first.buf[first.start..first.start + max];
        FrontOfStretch(first.buf, first.start, first.length, max, pieces[0].data);
        FlattenTrim(pieces, max);
        TrimFirst(max, arena.home);
      }
    }

    lemma FragmentsAndPieces()
      requires Loaded()
      ensures |frags| == |pieces|
    {
    }

    lemma NothingLeft(arena: Arena)
      requires Chain(arena) && first == null
      ensures Contents() == []
    {
    }

    lemma HasFirst(home: Home)
      requires Linked(home) && Loaded() && Contents() != []
      ensures first != null && frags != []
    {
    }

    // yc_buffer_read: up to max bytes leave the front.
    method Read(arena: Arena, max: nat) returns (data: seq<byte>)
      requires Valid(arena)
      modifies this, mine, arena
      ensures Valid(arena) && Frame(arena) && mine <= old(mine)
      ensures old(Contents()) == data + Contents()
      ensures |data| == if max < old(|Contents()|) then max else old(|Contents()|)
      ensures multiset(arena.destroyed) + Owed() == multiset(old(arena.destroyed)) + old(Owed())
    {
      hide Flatten, Tokens, Linked, Loaded, Arena.Valid;
      data := [];
      var left := max;
      while left > 0 && first != null
        invariant Chain(arena) && NoneEmpty() && Frame(arena) && mine <= old(mine) && size == old(size)
        invariant 0 <= left && |data| + left == max
        invariant old(Contents()) == data + Contents()
        invariant multiset(arena.destroyed) + Owed() == multiset(old(arena.destroyed)) + old(Owed())
        decreases left
      {
        var part := TakeRound(arena, left);
        data := data + part;
        left := left - |part|;
      }
      if first == null {
        NothingLeft(arena);
      }
      size := size - |data|;
    }

    // yc_buffer_discard: the same without the bytes.
    method Discard(arena: Arena, max: nat) returns (n: nat)
      requires Valid(arena)
      modifies this, mine, arena
      ensures Valid(arena) && Frame(arena) && mine <= old(mine)
      ensures n == (if max < old(|Contents()|) then max else old(|Contents()|)) && Contents() == old(Contents())[n..]
      ensures multiset(arena.destroyed) + Owed() == multiset(old(arena.destroyed)) + old(Owed())
    {
      hide Flatten, Tokens, Linked, Loaded, Arena.Valid;
      n := 0;
      var left := max;
      while left > 0 && first != null
        invariant Chain(arena) && NoneEmpty() && Frame(arena) && mine <= old(mine) && size == old(size)
        invariant 0 <= left && n + left == max && n + |Contents()| == old(|Contents()|)
        invariant Contents() == old(Contents())[n..]
        invariant multiset(arena.destroyed) + Owed() == multiset(old(arena.destroyed)) + old(Owed())
        decreases left
      {
        ghost var before := Contents();
        var part := TakeRound(arena, left);
        assert Contents() == before[|part|..];
        n := n + |part|;
        left := left - |part|;
      }
      if first == null {
        NothingLeft(arena);
      }
      size := size - n;
    }

    // yc_buffer_empty_to_string: everything is read.
    method EmptyToString(arena: Arena) returns (text: seq<byte>)
      requires Valid(arena)
      modifies this, mine, arena
      ensures Valid(arena) && Frame(arena) && mine <= old(mine)
      ensures text == old(Contents()) && Contents() == []
      ensures multiset(arena.destroyed) + Owed() == multiset(old(arena.destroyed)) + old(Owed())
    {
      hide Linked, Loaded, Arena.Valid, Flatten, Tokens;
      text := Read(arena, size);
    }

    // ---- clearing ----

    // A chain that nothing need point to.
    ghost predicate Hanging(home: Home)
      reads this`frags, this`mine, this`chunks, mine`next
    {
      && chunks <= home.Keys
      && (forall i | 0 <= i < |frags| ::
            && frags[i] in mine && (!frags[i].isForeign ==> frags[i].buf in chunks)
            && frags[i].AtHome(home) && frags[i].next == Follower(frags, i))
      && (forall i, j | 0 <= i < j < |frags| :: frags[i] != frags[j])
    }

    lemma RestOfHanging(home: Home)
      requires Hanging(home) && Loaded() && frags != []
      ensures |frags| == |pieces| && chunks <= home.Keys
      ensures var f, rest := frags[0], frags[1..];
        && f in mine && f.AtHome(home) && (!f.isForeign ==> f.buf in chunks)
        && f.next == (if rest == [] then null else rest[0])
        && (forall i | 0 <= i < |rest| ::
              && rest[i] != f && rest[i] in mine && rest[i].AtHome(home) && rest[i].next == Follower(rest, i)
              && (!rest[i].isForeign ==> rest[i].buf in chunks)
              && (!f.isForeign ==> rest[i].buf != f.buf))
        && (forall i | 0 <= i < |rest| :: rest[i].Holds(pieces[1..][i]))
        && (forall i, j | 0 <= i < j < |rest| :: rest[i] != rest[j])
      ensures TokenOf(pieces[0])
           == if frags[0].isForeign && frags[0].destroy.Some? then multiset{frags[0].destroy.value} else multiset{}
    {
      var rest := frags[1..];
      assert frags[0].Holds(pieces[0]);
      assert forall i | 0 <= i < |rest| :: rest[i] == frags[i + 1];
      assert forall i | 0 <= i < |rest| :: Follower(rest, i) == Follower(frags, i + 1);
      assert forall i | 0 <= i < |rest| :: pieces[1..][i] == pieces[i + 1];
    }

    // One round of the loop of yc_buffer_clear.
    method ClearRound(arena: Arena, at: Fragment) returns (next: Fragment?)
      requires arena.Valid() && Hanging(arena.home) && Loaded() && mine !! arena.spare && chunks !! arena.chunks
      requires frags != [] && at == frags[0]
      modifies this`frags, this`pieces, this`mine, this`chunks, at, arena
      ensures arena.Valid() && Hanging(arena.home) && Loaded() && mine !! arena.spare && chunks !! arena.chunks
      ensures mine <= old(mine) && Frame(arena) && frags == old(frags)[1..]
      ensures next == if frags == [] then null else frags[0]
      ensures multiset(arena.destroyed) + Owed() == multiset(old(arena.destroyed)) + old(Owed())
    {
      hide Hanging, Loaded, Arena.Valid, Flatten, Tokens, Fragment.AtHome, Fragment.Holds, Follower;
      RestOfHanging(arena.home);
      FlattenFirst(pieces);
      next := at.next;
      ghost var rest := frags[1..];
      frags, pieces := rest, pieces[1..];
      mine := mine - {at};
      chunks := chunks - if at.isForeign then {} else {at.buf};
      arena.Recycle(at);
      FoldHanging(rest, arena.home);
    }

    lemma FoldHanging(fs: seq<Fragment>, home: Home)
      requires fs == frags && |fs| == |pieces| && chunks <= home.Keys
      requires forall i | 0 <= i < |fs| ::
        && fs[i] in mine && (!fs[i].isForeign ==> fs[i].buf in chunks)
        && fs[i].AtHome(home) && fs[i].next == Follower(fs, i)
      requires forall i, j | 0 <= i < j < |fs| :: fs[i] != fs[j]
      requires forall i | 0 <= i < |fs| :: fs[i].Holds(pieces[i])
      ensures Hanging(home) && Loaded()
    {
    }

    lemma LetHang(home: Home)
      requires Linked(home)
      ensures Hanging(home) && first == if frags == [] then null else frags[0]
    {
    }

    // yc_buffer_clear: every fragment is given back, every callback owed runs.
    // Its description lets the buffer be used again, but the ends and the
    // size are left as they were.
    method Clear(arena: Arena)
      requires Valid(arena)
      modifies this`frags, this`pieces, this`mine, this`chunks, mine, arena
      ensures arena.Valid() && Frame(arena) && mine <= old(mine) && frags == [] && pieces == []
      ensures first == old(first) && last == old(last) && size == old(size)
      ensures multiset(arena.destroyed) == multiset(old(arena.destroyed)) + old(Owed())
      ensures Valid(arena) <==> old(Contents()) == []
    {
      hide Hanging, Linked, Loaded, Arena.Valid, Flatten, Tokens;
      LetHang(arena.home);
      EmptyIsNull(arena);
      var at := first;
      while at != null
        invariant arena.Valid() && Hanging(arena.home) && Loaded() && mine !! arena.spare && chunks !! arena.chunks
        invariant mine <= old(mine) && Frame(arena) && at == if frags == [] then null else frags[0]
        invariant multiset(arena.destroyed) + Owed() == multiset(old(arena.destroyed)) + old(Owed())
        decreases |frags|
      {
        RestOfHanging(arena.home);
        at := ClearRound(arena, at);
      }
      AllGone();
      WhenCleared(arena);
    }

    lemma EmptyIsNull(arena: Arena)
      requires Valid(arena)
      ensures Contents() == [] <==> first == null
      ensures Contents() == [] <==> size == 0 && first == null && last == null
    {
    }

    lemma AllGone()
      requires frags == [] && Loaded()
      ensures pieces == [] && Owed() == multiset{} && Contents() == []
    {
    }

    lemma WhenCleared(arena: Arena)
      requires arena.Valid() && Hanging(arena.home) && Loaded() && mine !! arena.spare && chunks !! arena.chunks
      requires frags == [] && pieces == []
      ensures Valid(arena) <==> size == 0 && first == null && last == null
    {
    }

    // yc_buffer_reset: clear, then init.
    method Reset(arena: Arena)
      requires Valid(arena)
      modifies this, mine, arena
      ensures Valid(arena) && Frame(arena) && mine <= old(mine) && Contents() == [] && Owed() == multiset{}
      ensures multiset(arena.destroyed) == multiset(old(arena.destroyed)) + old(Owed())
    {
      hide Hanging, Linked, Loaded, Arena.Valid, Flatten, Tokens;
      Clear(arena);
      Empty(arena.home);
    }

    // ---- looking without taking ----

    // Where fragment i starts in the contents, and what it holds of them.
    lemma PlaceOf(i: nat, home: Home)
      requires Linked(home) && Loaded() && i < |frags|
      ensures var f, before := frags[i], Flatten(pieces[..i]);
        && |frags| == |pieces| && f.start + f.length <= f.buf.Length
        && f.buf[f.start..f.start + f.length] == pieces[i].data && f.length == |pieces[i].data|
        && Flatten(pieces[..i + 1]) == before + pieces[i].data
        && Contents() == before + pieces[i].data + Flatten(pieces[i + 1..])
        && f.next == Follower(frags, i)
    {
      hide Flatten;
      assert frags[i].Holds(pieces[i]);
      FlattenAt(pieces, i);
    }

    // One byte of fragment i, and where it is in the contents.
    lemma ByteOf(i: nat, k: nat, home: Home)
      requires Linked(home) && Loaded() && i < |frags| && k < frags[i].length
      ensures |frags| == |pieces| && frags[i].start + k < frags[i].buf.Length && k < |pieces[i].data|
      ensures |Flatten(pieces[..i])| + k < |Contents()|
      ensures frags[i].buf[frags[i].start + k] == pieces[i].data[k] == Contents()[|Flatten(pieces[..i])| + k]
    {
      hide Flatten, Linked, Loaded;
      PlaceOf(i, home);
      var f := frags[i];
      assert f.buf[f.start..f.start + f.length][k] == f.buf[f.start + k];
    }

    lemma Ends(home: Home)
      requires Linked(home) && Loaded()
      ensures first == if frags == [] then null else frags[0]
      ensures |frags| == |pieces| && pieces[..0] == [] && pieces[..|frags|] == pieces
      ensures Flatten(pieces[..0]) == [] && Flatten(pieces[..|frags|]) == Contents()
    {
      assert pieces[..0] == [] && pieces[..|frags|] == pieces;
    }

    // yc_buffer_index_of: the position of the first occurrence, or -1.
    method IndexOf(arena: Arena, value: byte) returns (index: int)
      requires Valid(arena)
      ensures index == -1 ==> value !in Contents()
      ensures index != -1 ==> 0 <= index < |Contents()| && Contents()[index] == value && value !in Contents()[..index]
    {
      hide Flatten, Tokens, Linked, Loaded, Arena.Valid;
      var at := first;
      var passed := 0;
      ghost var i := 0;
      Ends(arena.home);
      while at != null
        invariant 0 <= i <= |frags| && at == (if i < |frags| then frags[i] else null)
        invariant passed == |Flatten(pieces[..i])| && value !in Flatten(pieces[..i])
        decreases |frags| - i
      {
        PlaceOf(i, arena.home);
        var sought := MemChr(at.buf, at.start, at.length, value);
        if sought >= 0 {
          ghost var before := Flatten(pieces[..i]);
          assert pieces[i].data[sought] == at.buf[at.start + sought];
          FrontOfStretch(at.buf, at.start, at.length, sought, pieces[i].data);
          FirstIn(before, pieces[i].data, Flatten(pieces[i + 1..]), sought, value);
          return passed + sought;
        }
        passed := passed + at.length;
        at := at.next;
        i := i + 1;
      }
      index := -1;
    }

    // yc_buffer_read_line: up to the first newline, which goes too; nothing
    // if there is none.  (Its scan is that of index_of.)
    method ReadLine(arena: Arena) returns (line: Option<seq<byte>>)
      requires Valid(arena)
      modifies this, mine, arena
      ensures Valid(arena) && Frame(arena) && mine <= old(mine)
      ensures multiset(arena.destroyed) + Owed() == multiset(old(arena.destroyed)) + old(Owed())
      ensures line.None? ==> 10 !in old(Contents()) && Contents() == old(Contents())
      ensures line.Some? ==> 10 !in line.value && old(Contents()) == line.value + [10] + Contents()
    {
      hide Linked, Loaded, Arena.Valid, Flatten, Tokens;
      line := ReadThrough(arena, NEWLINE);
    }

    // yc_buffer_parse_string0 is the same with a NUL, which stays in the result.
    method ParseString0(arena: Arena) returns (text: Option<seq<byte>>)
      requires Valid(arena)
      modifies this, mine, arena
      ensures Valid(arena) && Frame(arena) && mine <= old(mine)
      ensures multiset(arena.destroyed) + Owed() == multiset(old(arena.destroyed)) + old(Owed())
      ensures text.None? ==> 0 !in old(Contents()) && Contents() == old(Contents())
      ensures text.Some? ==> 0 !in text.value && old(Contents()) == text.value + [0] + Contents()
    {
      hide Linked, Loaded, Arena.Valid, Flatten, Tokens;
      text := ReadThrough(arena, 0);
    }

    method ReadThrough(arena: Arena, stop: byte) returns (text: Option<seq<byte>>)
      requires Valid(arena)
      modifies this, mine, arena
      ensures Valid(arena) && Frame(arena) && mine <= old(mine)
      ensures multiset(arena.destroyed) + Owed() == multiset(old(arena.destroyed)) + old(Owed())
      ensures text.None? ==> stop !in old(Contents()) && Contents() == old(Contents())
      ensures text.Some? ==> stop !in text.value && old(Contents()) == text.value + [stop] + Contents()
    {
      hide Linked, Loaded, Arena.Valid, Flatten, Tokens;
      ghost var whole := Contents();
      var index := IndexOf(arena, stop);
      if index < 0 {
        return None;
      }
      var data := Read(arena, index + 1);
      assert data == whole[..index + 1];
      assert data[..index] == whole[..index];
      assert data == data[..index] + [stop];
      text := Some(data[..index]);
    }

    // yc_buffer_peek: up to max bytes of the front, which stay.
    method Peek(arena: Arena, max: nat) returns (data: seq<byte>)
      requires Valid(arena)
      ensures data == Contents()[..if max < |Contents()| then max else |Contents()|]
    {
      hide Flatten, Tokens, Linked, Loaded, Arena.Valid;
      data := [];
      var at, left := first, max;
      ghost var i := 0;
      Ends(arena.home);
      while left > 0 && at != null
        invariant 0 <= i <= |frags| && at == (if i < |frags| then frags[i] else null)
        invariant 0 <= left && |data| + left == max
        invariant left > 0 ==> data == Flatten(pieces[..i])
        invariant |data| <= |Contents()| && data == Contents()[..|data|]
        decreases left, |frags| - i
      {
        PlaceOf(i, arena.home);
        if at.length <= left {
          data := data + at.buf[at.start..at.start + at.length];
          left := left - at.length;
          at := at.next;
          i := i + 1;
        } else {
          FrontOfStretch(at.buf, at.start, at.length, left, pieces[i].data);
          data := data + at.buf[at.start..at.start + left];
          left := 0;
        }
      }
    }

    // yc_buffer_peek_byte: the first byte, or -1.
    method PeekByte(arena: Arena) returns (value: int)
      requires Valid(arena)
      ensures value == if Contents() == [] then -1 else Contents()[0]
    {
      hide Flatten, Tokens, Linked, Loaded, Arena.Valid;
      Ends(arena.home);
      if first == null {
        NothingLeft(arena);
        return -1;
      }
      PlaceOf(0, arena.home);
      value := first.buf[first.start];
      ByteOf(0, 0, arena.home);
    }

    // yc_buffer_find_fragment: the fragment that holds the byte at an offset, or
    // null for the end.
    method FindFragment(arena: Arena, offset: nat) returns (at: Fragment?, passed: nat)
      requires Valid(arena) && offset <= |Contents()|
      ensures offset == |Contents()| ==> at == null && passed == offset
      ensures offset < |Contents()| ==>
        && at != null && passed <= offset < passed + at.length && at.start + at.length <= at.buf.Length
        && at.buf[at.start + (offset - passed)] == Contents()[offset]
    {
      hide Flatten, Tokens, Linked, Loaded, Arena.Valid;
      Ends(arena.home);
      at, passed := first, 0;
      ghost var i := 0;
      while passed < offset && offset >= passed + at.length
        invariant 0 <= i <= |frags| && at == (if i < |frags| then frags[i] else null)
        invariant passed == |Flatten(pieces[..i])| <= offset
        decreases |frags| - i
      {
        PlaceOf(i, arena.home);
        passed := passed + at.length;
        at := at.next;
        i := i + 1;
      }
      if i < |frags| {
        PlaceOf(i, arena.home);
        assert pieces[i].data != [];
        ByteOf(i, offset - passed, arena.home);
      }
    }

    method GetByteAt(arena: Arena, index: nat) returns (value: byte)
      requires Valid(arena) && index < |Contents()|
      ensures value == Contents()[index]
    {
      hide Flatten, Tokens, Linked, Loaded, Arena.Valid;
      var at, passed := FindFragment(arena, index);
      value := at.buf[at.start + (index - passed)];
    }

    method GetLastByte(arena: Arena) returns (value: byte)
      requires Valid(arena) && Contents() != []
      ensures value == Contents()[|Contents()| - 1]
    {
      hide Flatten, Tokens, Loaded, Arena.Valid;
      Ends(arena.home);
      HasFirst(arena.home);
      ghost var k := |frags| - 1;
      PlaceOf(k, arena.home);
      value := last.buf[last.start + last.length - 1];
      ByteOf(k, last.length - 1, arena.home);
    }

    // yc_buffer_read_byte: the first byte, taken off, or -1.
    method ReadByte(arena: Arena) returns (value: int)
      requires Valid(arena)
      modifies this, mine, arena
      ensures Valid(arena) && Frame(arena) && mine <= old(mine)
      ensures multiset(arena.destroyed) + Owed() == multiset(old(arena.destroyed)) + old(Owed())
      ensures value == -1 ==> old(Contents()) == [] && Contents() == []
      ensures value != -1 ==> 0 <= value < 256 && old(Contents()) == [value] + Contents()
    {
      hide Flatten, Tokens, Linked, Loaded, Arena.Valid;
      var data := Read(arena, 1);
      value := if data == [] then -1 else data[0];
    }

    // The inner comparison of yc_buffer_str_index_of: does the rest of the
    // needle, from k on, follow?  `at` is where offset `sub` of fragment i is.
    method Follows(arena: Arena, from: Fragment, subAt: nat, subRem: nat, needle: seq<Char>, k0: nat, ghost i0: nat)
        returns (found: bool)
      requires Valid(arena) && 0 < k0 <= |needle| && i0 < |frags| && from == frags[i0]
      requires from.start <= subAt && subAt + subRem == from.start + from.length
      requires var p := |Flatten(pieces[..i0])| + (subAt - from.start); p >= k0
      ensures var p := |Flatten(pieces[..i0])| + (subAt - from.start);
        found <==> MatchesAt(Contents(), p, needle[k0..])
    {
      hide Flatten, Tokens, Linked, Loaded, Arena.Valid, MatchesAt;
      var sub, k := from, k0;
      var pos: nat, rem: nat := subAt, subRem;
      ghost var i := i0;
      Ends(arena.home);
      ghost var p0 := |Flatten(pieces[..i0])| + (subAt - from.start);
      PlaceOf(i, arena.home);
      assert MatchesAt(Contents(), p0, needle[k0..k]) by { MatchesNothing(Contents(), p0, needle[k0..k]); }
      while k < |needle|
        invariant k0 <= k <= |needle| && i < |frags| && sub == frags[i]
        invariant sub.start <= pos && pos + rem == sub.start + sub.length <= sub.buf.Length
        invariant p0 + (k - k0) == |Flatten(pieces[..i])| + (pos - sub.start)
        invariant p0 + (k - k0) <= |Contents()|
        invariant MatchesAt(Contents(), p0, needle[k0..k])
        decreases |frags| - i, rem
      {
        PlaceOf(i, arena.home);
        if rem == 0 {
          sub := sub.next;
          if sub == null {
            TooShort(Contents(), p0, needle, k0, k);
            return false;
          }
          i := i + 1;
          PlaceOf(i, arena.home);
          pos, rem := sub.start, sub.length;
        } else {
          ByteOf(i, pos - sub.start, arena.home);
          MatchesNext(Contents(), p0, needle, k0, k);
          if needle[k] != sub.buf[pos] {
            return false;
          }
          k, pos, rem := k + 1, pos + 1, rem - 1;
        }
      }
      assert needle[k0..k] == needle[k0..];
      found := true;
    }

    // yc_buffer_str_index_of: the first occurrence of a non-empty text, also
    // across fragments, if none of its bytes is above 127; otherwise -1, whether
    // it occurs or not.
    method StrIndexOf(arena: Arena, text: seq<byte>) returns (index: int)
      requires Valid(arena) && text != []
      ensures index != -1 <==> IsAscii(text) && exists p :: OccursAt(Contents(), p, text)
      ensures index != -1 ==> 0 <= index && OccursAt(Contents(), index, text)
      ensures index != -1 ==> forall p: nat | p < index :: !OccursAt(Contents(), p, text)
    {
      hide MatchesAt, OccursAt;
      index := FindChars(arena, AsChars(text));
      forall p: nat
        ensures MatchesAt(Contents(), p, AsChars(text)) <==> OccursAt(Contents(), p, text) && IsAscii(text)
      {
        MatchesAsSigned(Contents(), p, text);
      }
    }

    // The search itself, for the characters that the caller's bytes are read as.
    method FindChars(arena: Arena, needle: seq<Char>) returns (index: int)
      requires Valid(arena) && needle != []
      ensures index == -1 ==> forall p: nat :: !MatchesAt(Contents(), p, needle)
      ensures index != -1 ==> 0 <= index && MatchesAt(Contents(), index, needle)
      ensures index != -1 ==> forall p: nat | p < index :: !MatchesAt(Contents(), p, needle)
    {
      hide Flatten, Tokens, Linked, Loaded, Arena.Valid;
      var fragment, passed := first, 0;
      ghost var i := 0;
      Ends(arena.home);
      while fragment != null
        invariant 0 <= i <= |frags| && fragment == (if i < |frags| then frags[i] else null)
        invariant passed == |Flatten(pieces[..i])|
        invariant forall p: nat | p < passed :: !MatchesAt(Contents(), p, needle)
        decreases |frags| - i
      {
        PlaceOf(i, arena.home);
        ghost var start := passed;
        var at, rem := fragment.start, fragment.length;
        while rem > 0
          invariant 0 <= rem && fragment.start <= at && at + rem == fragment.start + fragment.length
          invariant passed == start + (at - fragment.start)
          invariant forall p: nat | p < passed :: !MatchesAt(Contents(), p, needle)
        {
          ByteOf(i, at - fragment.start, arena.home);
          if fragment.buf[at] == needle[0] {
            var found := Follows(arena, fragment, at + 1, rem - 1, needle, 1, i);
            MatchesFirst(Contents(), passed, needle);
            if found {
              return passed;
            }
          }
          at, rem, passed := at + 1, rem - 1, passed + 1;
        }
        fragment := fragment.next;
        i := i + 1;
      }
      index := -1;
    }

    lemma MatchesNext(s: seq<byte>, p: nat, needle: seq<Char>, k0: nat, k: nat)
      requires k0 <= k < |needle| && MatchesAt(s, p, needle[k0..k]) && p + (k - k0) < |s|
      ensures s[p + (k - k0)] == needle[k] ==> MatchesAt(s, p, needle[k0..k + 1])
      ensures s[p + (k - k0)] != needle[k] ==> !MatchesAt(s, p, needle[k0..])
    {
      assert needle[k0..][k - k0] == needle[k];
      assert needle[k0..k + 1] == needle[k0..k] + [needle[k]];
    }

    lemma MatchesNothing(s: seq<byte>, p: nat, needle: seq<Char>)
      requires p <= |s| && needle == []
      ensures MatchesAt(s, p, needle)
    {
    }

    lemma TooShort(s: seq<byte>, p: nat, needle: seq<Char>, k0: nat, k: nat)
      requires k0 <= k < |needle| && p + (k - k0) >= |s|
      ensures !MatchesAt(s, p, needle[k0..])
    {
    }

    lemma MatchesFirst(s: seq<byte>, p: nat, needle: seq<Char>)
      requires needle != [] && p < |s| && s[p] == needle[0]
      ensures MatchesAt(s, p, needle) <==> MatchesAt(s, p + 1, needle[1..])
    {
      if MatchesAt(s, p + 1, needle[1..]) {
        forall j | 0 <= j < |needle|
          ensures s[p + j] == needle[j]
        {
          if j > 0 { assert s[p + 1 + (j - 1)] == needle[1..][j - 1]; }
        }
      }
      if MatchesAt(s, p, needle) {
        forall j | 0 <= j < |needle[1..]|
          ensures s[p + 1 + j] == needle[1..][j]
        {
          assert s[p + (j + 1)] == needle[j + 1];
        }
      }
    }

    // ---- from buffer to buffer ----

    ghost predicate Apart(src: Buffer)
      reads this`mine, this`chunks, src`mine, src`chunks
    {
      this != src && mine !! src.mine && chunks !! src.chunks
    }

    // yc_buffer_transfer: the fragments of src are hung on the end, uncopied.
    method Transfer(arena: Arena, src: Buffer) returns (n: nat)
      requires Valid(arena) && src.Valid(arena) && Apart(src)
      modifies this, src, mine
      ensures Valid(arena) && src.Valid(arena) && Apart(src)
      ensures mine + src.mine == old(mine + src.mine) && chunks + src.chunks == old(chunks + src.chunks)
      ensures n == old(|src.Contents()|)
      ensures Contents() == old(Contents()) + old(src.Contents()) && src.Contents() == []
      ensures Owed() == old(Owed()) + old(src.Owed()) && src.Owed() == multiset{}
    {
      hide Linked, Loaded, Flatten, Tokens, Arena.Valid;
      n := src.size;
      if src.first == null {
        src.NothingOwed(arena.home);
        return;
      }
      size := size + src.size;
      FlattenConcat(pieces, src.pieces);
      Splice(src, arena.home);
      src.Empty(arena.home);
    }

    // size = 0 and both ends NULL.
    method Empty(ghost home: Home)
      modifies this
      ensures Linked(home) && Loaded() && NoneEmpty() && size == 0 && mine == {} && chunks == {}
      ensures Contents() == [] && Owed() == multiset{}
    {
      size := 0;
      first, last := null, null;
      frags, pieces, mine, chunks := [], [], {}, {};
    }

    lemma NothingOwed(home: Home)
      requires Linked(home) && Loaded() && first == null
      ensures Contents() == [] && Owed() == multiset{}
    {
    }

    // The other chain is hung on the end of this one.
    method SpliceLinks(src: Buffer)
      requires last != null ==> last in mine
      modifies this`first, this`last, (if last == null then {} else {last})`next
      ensures last == src.last && first == if old(last) != null then old(first) else src.first
      ensures old(last) != null ==> old(last).next == src.first
    {
      if last != null {
        last.next := src.first;
        last := src.last;
      } else {
        first := src.first;
        last := src.last;
      }
    }

    method SpliceLinked(src: Buffer, ghost home: Home)
      requires Linked(home) && src.Linked(home) && Apart(src) && src.first != null
      modifies this`first, this`last, this`frags, this`mine, this`chunks, mine`next
      ensures Linked(home) && frags == old(frags) + src.frags
      ensures mine == old(mine) + src.mine && chunks == old(chunks) + src.chunks
    {
      hide Linked, Fragment.AtHome, Follower;
      ghost var a, b := frags, src.frags;
      UnfoldLinked(home);
      src.UnfoldLinked(home);
      SpliceLinks(src);
      assert forall i | 0 <= i < |a| - 1 :: a[i].next == Follower(a, i);
      assert forall i | 0 <= i < |b| :: b[i].next == Follower(b, i);
      frags, mine, chunks := a + b, mine + src.mine, chunks + src.chunks;
      FoldConcat(a, b, home);
    }

    method Splice(src: Buffer, ghost home: Home)
      requires Linked(home) && Loaded() && src.Linked(home) && src.Loaded() && Apart(src) && src.first != null
      modifies this`first, this`last, this`frags, this`pieces, this`mine, this`chunks, mine`next
      ensures Linked(home) && Loaded()
      ensures frags == old(frags) + src.frags && pieces == old(pieces) + src.pieces
      ensures mine == old(mine) + src.mine && chunks == old(chunks) + src.chunks
    {
      hide Linked, Fragment.Holds;
      SpliceLinked(src, home);
      pieces := pieces + src.pieces;
    }

    // The definition of Linked, taken apart ...
    lemma UnfoldLinked(home: Home)
      requires Linked(home)
      ensures chunks <= home.Keys
      ensures forall i | 0 <= i < |frags| ::
        frags[i] in mine && (!frags[i].isForeign ==> frags[i].buf in chunks) && frags[i].AtHome(home)
      ensures forall i | 0 <= i < |frags| :: frags[i].next == Follower(frags, i)
      ensures forall i, j | 0 <= i < j < |frags| :: frags[i] != frags[j]
      ensures if frags == [] then first == null && last == null
              else first == frags[0] && last == frags[|frags| - 1]
    {
    }

    // ... and put together for two chains made one.
    lemma FoldConcat(a: seq<Fragment>, b: seq<Fragment>, home: Home)
      requires frags == a + b && b != [] && chunks <= home.Keys
      requires forall i | 0 <= i < |a| :: a[i] in mine && (!a[i].isForeign ==> a[i].buf in chunks) && a[i].AtHome(home)
      requires forall i | 0 <= i < |b| :: b[i] in mine && (!b[i].isForeign ==> b[i].buf in chunks) && b[i].AtHome(home)
      requires forall i | 0 <= i < |a| - 1 :: a[i].next == Follower(a, i)
      requires a != [] ==> a[|a| - 1].next == b[0]
      requires forall i | 0 <= i < |b| :: b[i].next == Follower(b, i)
      requires forall i, j | 0 <= i < j < |a| :: a[i] != a[j]
      requires forall i, j | 0 <= i < j < |b| :: b[i] != b[j]
      requires forall i, j | 0 <= i < |a| && 0 <= j < |b| :: a[i] != b[j]
      requires first == (if a == [] then b[0] else a[0]) && last == b[|b| - 1]
      ensures Linked(home)
    {
      FollowersOfConcat(a, b);
      var fs := frags;
      forall i | 0 <= i < |fs|
        ensures && fs[i] in mine && (!fs[i].isForeign ==> fs[i].buf in chunks)
                && fs[i].AtHome(home) && fs[i].next == Follower(fs, i)
      {
        if i < |a| {
          assert fs[i] == a[i];
        } else {
          assert fs[i] == b[i - |a|];
        }
      }
    }

    lemma FollowersOfConcat(a: seq<Fragment>, b: seq<Fragment>)
      requires b != []
      ensures forall i | 0 <= i < |a| - 1 :: Follower(a + b, i) == Follower(a, i)
      ensures a != [] ==> Follower(a + b, |a| - 1) == b[0]
      ensures forall i | |a| <= i < |a| + |b| :: Follower(a + b, i) == Follower(b, i - |a|)
    {
    }

    // The bytes of this buffer are out of reach of operations on another one.
    lemma BytesApart(arena: Arena, other: Buffer)
      requires arena.Valid() && Linked(arena.home) && other.Linked(arena.home)
      requires Apart(other) && chunks !! arena.chunks
      ensures forall f | f in frags :: f.buf !in other.chunks && f.buf !in arena.chunks
    {
    }

    lemma FragmentsAreMine(home: Home)
      requires Linked(home)
      ensures forall i | 0 <= i < |frags| :: frags[i] in mine
    {
    }

    // The first fragment of src becomes the last of this buffer.
    method MoveFirst(src: Buffer, ghost home: Home)
      requires Linked(home) && Loaded() && src.Linked(home) && src.Loaded() && Apart(src) && src.first != null
      modifies this`first, this`last, this`frags, this`pieces, this`mine, this`chunks, mine`next
      modifies src`first, src`last, src`frags, src`pieces, src`mine, src`chunks, src.first`next
      ensures Linked(home) && Loaded() && src.Linked(home) && src.Loaded() && Apart(src)
      ensures mine + src.mine == old(mine + src.mine) && chunks + src.chunks == old(chunks + src.chunks)
      ensures old(src.pieces) != [] && src.pieces == old(src.pieces)[1..] && pieces == old(pieces) + [old(src.pieces)[0]]
    {
      hide Linked, Loaded, Fragment.AtHome, Fragment.Holds;
      src.FirstFragment(home);
      src.FirstHolds(home);
      ghost var p := src.pieces[0];
      var f := src.UnlinkFirst(home);
      f.next := null;
      Link(f, p, home);
    }

    lemma FirstHolds(home: Home)
      requires Linked(home) && Loaded() && first != null
      ensures pieces != [] && first.Holds(pieces[0])
    {
    }

    // One round of yc_buffer_transfer_max: a whole fragment moves.
    method MoveRound(arena: Arena, src: Buffer) returns (moved: nat)
      requires Chain(arena) && src.Chain(arena) && Apart(src) && src.first != null && NoneEmpty() && src.NoneEmpty()
      modifies this`first, this`last, this`frags, this`pieces, this`mine, this`chunks, mine`next
      modifies src`first, src`last, src`frags, src`pieces, src`mine, src`chunks, src.mine`next
      ensures Chain(arena) && src.Chain(arena) && Apart(src) && NoneEmpty() && src.NoneEmpty()
      ensures mine + src.mine == old(mine + src.mine) && chunks + src.chunks == old(chunks + src.chunks)
      ensures moved == old(src.first.length) <= old(|src.Contents()|)
      ensures Contents() == old(Contents()) + old(src.Contents())[..moved] && src.Contents() == old(src.Contents())[moved..]
      ensures Owed() + src.Owed() == old(Owed()) + old(src.Owed())
      ensures |src.pieces| < old(|src.pieces|)
    {
      hide Linked, Loaded, Flatten, Tokens, Arena.Valid, TokenOf;
      src.FirstFragment(arena.home);
      moved := src.first.length;
      FlattenFirst(src.pieces);
      FlattenLast(pieces, src.pieces[0]);
      MoveFirst(src, arena.home);
    }

    method MoveWhole(arena: Arena, src: Buffer, max: nat) returns (moved: nat)
      requires Chain(arena) && src.Chain(arena) && Apart(src) && NoneEmpty() && src.NoneEmpty()
      modifies this`first, this`last, this`frags, this`pieces, this`mine, this`chunks, mine`next
      modifies src`first, src`last, src`frags, src`pieces, src`mine, src`chunks, src.mine`next
      ensures Chain(arena) && src.Chain(arena) && Apart(src) && NoneEmpty() && src.NoneEmpty()
      ensures mine + src.mine == old(mine + src.mine) && chunks + src.chunks == old(chunks + src.chunks)
      ensures moved <= max && moved <= old(|src.Contents()|)
      ensures Contents() == old(Contents()) + old(src.Contents())[..moved] && src.Contents() == old(src.Contents())[moved..]
      ensures Owed() + src.Owed() == old(Owed()) + old(src.Owed())
      ensures src.first != null ==> max - moved < src.first.length
    {
      hide Linked, Loaded, Flatten, Tokens, Arena.Valid;
      moved := 0;
      while src.first != null && max - moved >= src.first.length
        invariant Chain(arena) && src.Chain(arena) && Apart(src) && NoneEmpty() && src.NoneEmpty()
        invariant mine + src.mine == old(mine + src.mine) && chunks + src.chunks == old(chunks + src.chunks)
        invariant moved <= max && moved <= old(|src.Contents()|)
        invariant Contents() == old(Contents()) + old(src.Contents())[..moved]
        invariant src.Contents() == old(src.Contents())[moved..]
        invariant Owed() + src.Owed() == old(Owed()) + old(src.Owed())
        decreases |src.pieces|
      {
        ghost var whole := old(src.Contents());
        var m := MoveRound(arena, src);
        assert whole[moved..][..m] == whole[moved..moved + m] && whole[moved..][m..] == whole[moved + m..];
        assert whole[..moved] + whole[moved..moved + m] == whole[..moved + m];
        moved := moved + m;
      }
    }

    // One fragment of src, or the start of one, is copied.
    method AppendPiece(arena: Arena, src: Buffer, at: Fragment, n: nat, ghost i: nat)
      requires Valid(arena) && src.Chain(arena) && Apart(src)
      requires i < |src.frags| && at == src.frags[i] && n <= at.length
      modifies this, mine, chunks, arena, arena.spare, arena.chunks
      ensures Valid(arena) && src.Chain(arena) && Apart(src) && Frame(arena) && arena.destroyed == old(arena.destroyed)
      ensures i < |src.pieces| && n <= |src.pieces[i].data|
      ensures Contents() == old(Contents()) + src.pieces[i].data[..n] && Owed() == old(Owed())
    {
      hide Valid, Chain, Linked, Loaded, NoneEmpty, Flatten, Tokens, Arena.Valid, Fragment.AtHome, Fragment.Holds, Follower;
      Parts(arena);
      src.ChainParts(arena);
      src.PlaceOf(i, arena.home);
      src.BytesApart(arena, this);
      src.FragmentsAreMine(arena.home);
      var data := at.buf[at.start..at.start + n];
      FrontOfStretch(at.buf, at.start, at.length, n, src.pieces[i].data);
      ghost var home := arena.home;
      Append(arena, data);
      Parts(arena);
      src.StillLinked(home, arena.home);
      src.ChainWhole(arena);
    }

    // The rest of yc_buffer_transfer_max: part of a fragment is copied.
    method CopyRest(arena: Arena, src: Buffer, n: nat)
      requires Valid(arena) && src.Chain(arena) && Apart(src) && src.NoneEmpty()
      requires src.first != null && n < src.first.length
      modifies this, src`pieces, mine, src.mine, chunks, arena, arena.spare, arena.chunks
      ensures Valid(arena) && src.Chain(arena) && Apart(src) && src.NoneEmpty() && Frame(arena)
      ensures n <= old(|src.Contents()|)
      ensures Contents() == old(Contents()) + old(src.Contents())[..n] && src.Contents() == old(src.Contents())[n..]
      ensures Owed() == old(Owed()) && src.Owed() == old(src.Owed()) && arena.destroyed == old(arena.destroyed)
    {
      hide Linked, Loaded, Flatten, Tokens, Arena.Valid;
      src.FirstFragment(arena.home);
      FlattenTrim(src.pieces, n);
      AppendPiece(arena, src, src.first, n, 0);
      FragmentsAreMine(arena.home);
      src.TrimFirst(n, arena.home);
    }

    method TransferRest(arena: Arena, src: Buffer, left: nat) returns (n: nat)
      requires Valid(arena) && src.Chain(arena) && Apart(src) && src.NoneEmpty()
      requires src.first != null ==> left < src.first.length
      modifies this, src`pieces, mine, src.mine, chunks, arena, arena.spare, arena.chunks
      ensures Valid(arena) && src.Chain(arena) && Apart(src) && src.NoneEmpty()
      ensures n == if left < old(|src.Contents()|) then left else old(|src.Contents()|)
      ensures Contents() == old(Contents()) + old(src.Contents())[..n] && src.Contents() == old(src.Contents())[n..]
      ensures Owed() == old(Owed()) && src.Owed() == old(src.Owed()) && arena.destroyed == old(arena.destroyed)
      ensures Frame2(arena, src)
    {
      hide Chain, Flatten, Tokens, Arena.Valid;
      n := 0;
      if src.first == null {
        src.NothingLeft(arena);
      } else if left > 0 {
        CopyRest(arena, src, left);
        n := left;
      }
    }

    // The loop of yc_buffer_transfer_max, and the new size.
    method MoveAndCount(arena: Arena, src: Buffer, max: nat) returns (moved: nat)
      requires Valid(arena) && src.Chain(arena) && Apart(src) && src.NoneEmpty()
      modifies this, src`first, src`last, src`frags, src`pieces, src`mine, src`chunks, mine`next, src.mine`next
      ensures Valid(arena) && src.Chain(arena) && Apart(src) && src.NoneEmpty()
      ensures mine + src.mine == old(mine + src.mine) && chunks + src.chunks == old(chunks + src.chunks)
      ensures moved <= max && moved <= old(|src.Contents()|)
      ensures Contents() == old(Contents()) + old(src.Contents())[..moved] && src.Contents() == old(src.Contents())[moved..]
      ensures Owed() + src.Owed() == old(Owed()) + old(src.Owed())
      ensures src.first != null ==> max - moved < src.first.length
    {
      hide Linked, Loaded, Flatten, Tokens, Arena.Valid;
      moved := MoveWhole(arena, src, max);
      size := size + moved;
    }

    // yc_buffer_transfer_max: whole fragments move; what is left over is copied.
    method TransferMax(arena: Arena, src: Buffer, max: nat) returns (n: nat)
      requires Valid(arena) && src.Valid(arena) && Apart(src)
      modifies this, src, mine, src.mine, chunks, src.chunks, arena, arena.spare, arena.chunks
      ensures Valid(arena) && src.Valid(arena) && Apart(src)
      ensures n == if max < old(|src.Contents()|) then max else old(|src.Contents()|)
      ensures Contents() == old(Contents()) + old(src.Contents())[..n] && src.Contents() == old(src.Contents())[n..]
      ensures Owed() + src.Owed() == old(Owed()) + old(src.Owed()) && arena.destroyed == old(arena.destroyed)
      ensures Frame2(arena, src)
    {
      hide Chain, Flatten, Tokens, Arena.Valid, NoneEmpty;
      ghost var whole := src.Contents();
      ghost var objects, arrays := mine + src.mine + arena.spare, chunks + src.chunks + arena.chunks;
      n := MoveAndCount(arena, src, max);
      label L:
      assert old@L(mine + src.mine + arena.spare) == objects && old@L(chunks + src.chunks + arena.chunks) == arrays;
      var m := TransferRest(arena, src, max - n);
      assert fresh(mine + src.mine + arena.spare - objects) && fresh(chunks + src.chunks + arena.chunks - arrays);
      assert whole[..n] + whole[n..][..m] == whole[..n + m];
      assert whole[n..][m..] == whole[n + m..];
      n := n + m;
      src.size := src.size - n;
    }

    // yc_buffer_append_buffer: a copy of src is appended; src stays.
    method AppendBuffer(arena: Arena, src: Buffer) returns (n: nat)
      requires Valid(arena) && src.Valid(arena) && Apart(src)
      modifies this, mine, chunks, arena, arena.spare, arena.chunks
      ensures Valid(arena) && src.Valid(arena) && Apart(src) && Frame(arena) && arena.destroyed == old(arena.destroyed)
      ensures n == |src.Contents()| && Contents() == old(Contents()) + src.Contents() && Owed() == old(Owed())
    {
      hide Chain, Linked, Loaded, Flatten, Tokens, Arena.Valid;
      n := AppendPrefix(arena, src, src.size);
    }

    // yc_buffer_append_buffer_max: the same for no more than max bytes.
    method AppendBufferMax(arena: Arena, src: Buffer, max: nat) returns (n: nat)
      requires Valid(arena) && src.Valid(arena) && Apart(src)
      modifies this, mine, chunks, arena, arena.spare, arena.chunks
      ensures Valid(arena) && src.Valid(arena) && Apart(src) && Frame(arena) && arena.destroyed == old(arena.destroyed)
      ensures n == if max < |src.Contents()| then max else |src.Contents()|
      ensures Contents() == old(Contents()) + src.Contents()[..n] && Owed() == old(Owed())
    {
      hide Chain, Linked, Loaded, Flatten, Tokens, Arena.Valid;
      if max >= src.size {
        n := AppendBuffer(arena, src);
      } else {
        n := AppendPrefix(arena, src, max);
      }
    }

    method AppendPrefix(arena: Arena, src: Buffer, max: nat) returns (n: nat)
      requires Valid(arena) && src.Valid(arena) && Apart(src) && max <= src.size
      modifies this, mine, chunks, arena, arena.spare, arena.chunks
      ensures Valid(arena) && src.Valid(arena) && Apart(src) && Frame(arena) && arena.destroyed == old(arena.destroyed)
      ensures n == max && Contents() == old(Contents()) + src.Contents()[..n] && Owed() == old(Owed())
    {
      hide Linked, Loaded, Flatten, Tokens, Arena.Valid, NoneEmpty;
      var at, rem;
      ghost var i;
      at, rem, i := AppendWholes(arena, src, max);
      src.PrefixOf(i, arena.home);
      if rem > 0 {
        src.PlaceOf(i, arena.home);
        AppendPiece(arena, src, at, rem, i);
      }
      n := max;
    }

    // The loop of yc_buffer_append_buffer_max: fragments that fit are copied whole.
    method AppendWholes(arena: Arena, src: Buffer, max: nat) returns (at: Fragment?, rem: nat, ghost i: nat)
      requires Valid(arena) && src.Valid(arena) && Apart(src)
      modifies this, mine, chunks, arena, arena.spare, arena.chunks
      ensures Valid(arena) && src.Valid(arena) && Apart(src) && Frame(arena) && arena.destroyed == old(arena.destroyed)
      ensures i <= |src.frags| && i <= |src.pieces| && rem <= max && max - rem == |Flatten(src.pieces[..i])|
      ensures at == (if i < |src.frags| then src.frags[i] else null) && (at != null ==> rem < at.length)
      ensures Contents() == old(Contents()) + Flatten(src.pieces[..i]) && Owed() == old(Owed())
    {
      hide Chain, NoneEmpty, Flatten, Tokens;
      at, rem, i := src.first, max, 0;
      src.EndsOf(arena);
      while at != null && rem >= at.length
        invariant Valid(arena) && src.Valid(arena) && Apart(src) && Frame(arena)
        invariant arena.destroyed == old(arena.destroyed) && Owed() == old(Owed())
        invariant i <= |src.frags| == |src.pieces| && at == (if i < |src.frags| then src.frags[i] else null)
        invariant max - rem == |Flatten(src.pieces[..i])|
        invariant Contents() == old(Contents()) + Flatten(src.pieces[..i])
        decreases |src.frags| - i
      {
        at, rem := CopyRound(arena, src, at, rem, i);
        i := i + 1;
      }
    }

    method CopyRound(arena: Arena, src: Buffer, at: Fragment, rem: nat, ghost i: nat) returns (at': Fragment?, rem': nat)
      requires Valid(arena) && src.Valid(arena) && Apart(src)
      requires i < |src.frags| == |src.pieces| && at == src.frags[i] && at.length <= rem
      modifies this, mine, chunks, arena, arena.spare, arena.chunks
      ensures Valid(arena) && src.Valid(arena) && Apart(src) && Frame(arena) && arena.destroyed == old(arena.destroyed)
      ensures at' == Follower(src.frags, i) && rem' == rem - |src.pieces[i].data|
      ensures Contents() == old(Contents()) + src.pieces[i].data && Owed() == old(Owed())
      ensures Flatten(src.pieces[..i + 1]) == Flatten(src.pieces[..i]) + src.pieces[i].data
    {
      hide Linked, Loaded, Flatten, Tokens, Arena.Valid, NoneEmpty;
      src.PlaceOf(i, arena.home);
      AppendPiece(arena, src, at, at.length, i);
      src.PlaceOf(i, arena.home);
      FlattenAt(src.pieces, i);
      rem' := rem - at.length;
      at' := at.next;
    }

    lemma EndsOf(arena: Arena)
      requires Chain(arena)
      ensures |frags| == |pieces| && first == (if frags == [] then null else frags[0])
      ensures Flatten(pieces[..0]) == []
    {
    }

    lemma PrefixOf(i: nat, home: Home)
      requires Linked(home) && Loaded() && i <= |frags|
      ensures |frags| == |pieces| && Flatten(pieces[..i]) <= Contents()
      ensures i == |frags| ==> Flatten(pieces[..i]) == Contents()
    {
      FlattenSplit(pieces, i);
      Ends(home);
    }
  }

  // A C char, which is signed on the platforms concerned.
  type Char = x: int | -128 <= x < 128

  // The bytes at p are the characters of the needle.  A byte is compared as
  // an unsigned value and a character as a signed one.
  ghost predicate MatchesAt(s: seq<byte>, p: nat, needle: seq<Char>) {
    p + |needle| <= |s| && forall j | 0 <= j < |needle| :: s[p + j] == needle[j]
  }

  lemma FirstIn(before: seq<byte>, data: seq<byte>, rest: seq<byte>, k: nat, value: byte)
    requires k < |data| && data[k] == value && value !in before && value !in data[..k]
    ensures var s := before + data + rest; s[|before| + k] == value && value !in s[..|before| + k]
  {
    var s := before + data + rest;
    assert s[..|before| + k] == before + data[..k];
  }

  // A byte read through a char pointer.
  function AsChar(b: byte): (c: Char) {
    if b < 128 then b else b - 256
  }

  function AsChars(text: seq<byte>): (cs: seq<Char>)
    ensures |cs| == |text|
  {
    seq(|text|, i requires 0 <= i < |text| => AsChar(text[i]))
  }

  predicate OccursAt(s: seq<byte>, p: nat, text: seq<byte>) {
    p + |text| <= |s| && s[p..p + |text|] == text
  }

  predicate IsAscii(text: seq<byte>) {
    forall i | 0 <= i < |text| :: text[i] < 128
  }

  // No byte equals a negative character: a text is matched where it occurs,
  // unless it has a byte above 127.
  lemma MatchesAsSigned(s: seq<byte>, p: nat, text: seq<byte>)
    ensures MatchesAt(s, p, AsChars(text)) <==> OccursAt(s, p, text) && IsAscii(text)
  {
    if MatchesAt(s, p, AsChars(text)) {
      forall i | 0 <= i < |text|
        ensures text[i] < 128 && s[p..p + |text|][i] == text[i]
      {
        assert s[p + i] == AsChars(text)[i];
      }
    }
  }

  const NEWLINE: byte := 10

  // memchr: the offset of the first match within the range, or -1.
  method MemChr(a: array<byte>, from: nat, length: nat, value: byte) returns (index: int)
    requires from + length <= a.Length
    ensures index == -1 ==> value !in a[from..from + length]
    ensures index != -1 ==> 0 <= index < length && a[from + index] == value && value !in a[from..from + index]
  {
    for i := 0 to length
      invariant value !in a[from..from + i]
    {
      if a[from + i] == value {
        return i;
      }
      assert a[from..from + i + 1] == a[from..from + i] + [a[from + i]];
    }
    index := -1;
  }

  // The front of a stretch of an array.
  lemma FrontOfStretch(a: array<byte>, start: nat, length: nat, n: nat, data: seq<byte>)
    requires n <= length && start + length <= a.Length && a[start..start + length] == data
    ensures a[start..start + n] == data[..n]
  {
    assert a[start..start + length][..n] == a[start..start + n];
  }

  method CopyIn(dst: array<byte>, at: nat, data: seq<byte>)
    requires at + |data| <= dst.Length
    modifies dst
    ensures forall i | 0 <= i < dst.Length && (i < at || i >= at + |data|) :: dst[i] == old(dst[i])
    ensures forall i | 0 <= i < |data| :: dst[at + i] == data[i]
    ensures dst[..at] == old(dst[..at]) && dst[at..at + |data|] == data
  {
    forall i | 0 <= i < |data| {
      dst[at + i] := data[i];
    }
  }
}
