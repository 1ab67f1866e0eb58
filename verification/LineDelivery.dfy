// Reassembling a child's output into lines: the line buffers of src/yc-ui.c.
module LineDelivery {
  import opened Basics

  const NEWLINE: byte := 10
  const RETURN: byte := 13

  // The captured descriptors: standard output and standard error.
  const FIRST_CAPTURED := 1
  const N_CAPTURED := 2

  // ---- what lines a stream has ----

  // The pieces between newlines; the last one is not ended by one.
  ghost function Pieces(s: seq<byte>): (ps: seq<seq<byte>>)
    ensures |ps| >= 1
  {
    if s == [] then [[]]
    else
      var rest := Pieces(s[1..]);
      if s[0] == NEWLINE then [[]] + rest else [[s[0]] + rest[0]] + rest[1..]
  }

  ghost function Finished(s: seq<byte>): seq<seq<byte>> {
    Pieces(s)[..|Pieces(s)| - 1]
  }

  ghost function Rest(s: seq<byte>): seq<byte> {
    Pieces(s)[|Pieces(s)| - 1]
  }

  // A line loses one carriage return at its end.
  function Chomp(line: seq<byte>): seq<byte> {
    if line != [] && line[|line| - 1] == RETURN then line[..|line| - 1] else line
  }

  ghost function Chomped(lines: seq<seq<byte>>): (r: seq<seq<byte>>)
    ensures |r| == |lines|
  {
    seq(|lines|, i requires 0 <= i < |lines| => Chomp(lines[i]))
  }

  // Every line of a whole stream, with an unfinished last one if it is not empty.
  ghost function LinesOf(s: seq<byte>): seq<seq<byte>> {
    Chomped(Finished(s)) + if Rest(s) == [] then [] else [Chomp(Rest(s))]
  }

  // ---- a stream in two parts ----

  lemma NewlineFirst(s: seq<byte>)
    ensures Finished([NEWLINE] + s) == [[]] + Finished(s) && Rest([NEWLINE] + s) == Rest(s)
  {
    assert ([NEWLINE] + s)[1..] == s;
  }

  lemma PiecesPrepend(c: byte, s: seq<byte>)
    requires c != NEWLINE
    ensures |Pieces([c] + s)| == |Pieces(s)|
    ensures |Pieces(s)| == 1 ==> Finished([c] + s) == [] == Finished(s) && Rest([c] + s) == [c] + Rest(s)
    ensures |Pieces(s)| > 1 ==>
      && Finished(s) != [] && Finished([c] + s) == [[c] + Finished(s)[0]] + Finished(s)[1..]
      && Rest([c] + s) == Rest(s)
  {
    assert ([c] + s)[1..] == s;
  }

  // A line and its newline at the front.
  lemma {:induction false} LineFirst(line: seq<byte>, rest: seq<byte>)
    requires NEWLINE !in line
    ensures Finished(line + [NEWLINE] + rest) == [line] + Finished(rest)
    ensures Rest(line + [NEWLINE] + rest) == Rest(rest)
    decreases |line|
  {
    if line == [] {
      NewlineFirst(rest);
      assert line + [NEWLINE] + rest == [NEWLINE] + rest;
    } else {
      var tail := line[1..] + [NEWLINE] + rest;
      LineFirst(line[1..], rest);
      PiecesPrepend(line[0], tail);
      assert [line[0]] + tail == line + [NEWLINE] + rest && [line[0]] + line[1..] == line;
    }
  }

  lemma {:induction false} NoLine(s: seq<byte>)
    requires NEWLINE !in s
    ensures Finished(s) == [] && Rest(s) == s
  {
    if s != [] {
      NoLine(s[1..]);
      PiecesPrepend(s[0], s[1..]);
      assert [s[0]] + s[1..] == s;
    }
  }

  lemma {:induction false} PiecesConcat(a: seq<byte>, b: seq<byte>)
    ensures Finished(a + b) == Finished(a) + Finished(Rest(a) + b) && Rest(a + b) == Rest(Rest(a) + b)
    decreases |a|
  {
    hide Finished, Rest;
    if NEWLINE !in a {
      NoLine(a);
    } else {
      var k := FirstNewline(a);
      var line, tail := a[..k], a[k + 1..];
      assert a == line + [NEWLINE] + tail;
      assert a + b == line + [NEWLINE] + (tail + b);
      LineFirst(line, tail);
      LineFirst(line, tail + b);
      PiecesConcat(tail, b);
    }
  }

  lemma {:induction false} FirstNewline(s: seq<byte>) returns (k: nat)
    requires NEWLINE in s
    ensures k < |s| && s[k] == NEWLINE && NEWLINE !in s[..k]
  {
    if s[0] == NEWLINE {
      k := 0;
    } else {
      assert s == [s[0]] + s[1..];
      var j := FirstNewline(s[1..]);
      k := j + 1;
      assert s[..k] == [s[0]] + s[1..][..j];
    }
  }

  lemma {:induction false} RestHasNoNewline(s: seq<byte>)
    ensures NEWLINE !in Rest(s)
  {
    if s != [] {
      RestHasNoNewline(s[1..]);
    }
  }

  lemma ChompedConcat(a: seq<seq<byte>>, b: seq<seq<byte>>)
    ensures Chomped(a + b) == Chomped(a) + Chomped(b)
  {
  }

  // ---- lines as they are written ----

  // A line, ended by a newline or by a carriage return and a newline.
  datatype Ended = Ended(line: seq<byte>, withReturn: bool)

  predicate IsPlain(line: seq<byte>) {
    (forall i | 0 <= i < |line| :: line[i] != 10) && (line != [] ==> line[|line| - 1] != 13)
  }

  // Without a newline in it; and what comes before a mere newline does not end
  // in a carriage return.
  predicate GoodLines(es: seq<Ended>) {
    forall i | 0 <= i < |es| ::
      (forall j | 0 <= j < |es[i].line| :: es[i].line[j] != 10) && (es[i].withReturn || IsPlain(es[i].line))
  }

  function Spell(es: seq<Ended>): seq<byte> {
    if es == [] then []
    else es[0].line + (if es[0].withReturn then [13, 10] else [10]) + Spell(es[1..])
  }

  function EndedTexts(es: seq<Ended>): (lines: seq<seq<byte>>)
    ensures |lines| == |es|
  {
    seq(|es|, i requires 0 <= i < |es| => es[i].line)
  }

  lemma EndedLine(line: seq<byte>, withReturn: bool, rest: seq<byte>)
    requires (forall j | 0 <= j < |line| :: line[j] != 10) && (withReturn || IsPlain(line))
    ensures LinesOf(line + (if withReturn then [13, 10] else [10]) + rest) == [line] + LinesOf(rest)
  {
    var whole := if withReturn then line + [RETURN] else line;
    var text := line + (if withReturn then [13, 10] else [10]) + rest;
    assert text == whole + [NEWLINE] + rest;
    LineFirst(whole, rest);
    ChompedConcat([whole], Finished(rest));
    assert Chomp(whole) == line && Chomped([whole]) == [line];
    assert [line] + Chomped(Finished(rest)) + Last(rest) == [line] + (Chomped(Finished(rest)) + Last(rest));
  }

  // The unfinished last line.
  ghost function Last(s: seq<byte>): seq<seq<byte>> {
    if Rest(s) == [] then [] else [Chomp(Rest(s))]
  }

  // A stream ends in nothing, in an unfinished line, or in one and a carriage
  // return.
  lemma UnfinishedLine(line: seq<byte>, withReturn: bool)
    requires IsPlain(line) || (withReturn && forall j | 0 <= j < |line| :: line[j] != 10)
    ensures LinesOf(line + if withReturn then [13] else []) == if line == [] && !withReturn then [] else [line]
  {
    var text := line + if withReturn then [13] else [];
    NoLine(text);
    assert Chomped([]) == [];
    assert if withReturn then text[..|text| - 1] == line else text == line;
  }

  // Main result: the lines of a stream are those that were written, without
  // what ends them.
  lemma {:induction false} LinesWritten(es: seq<Ended>, line: seq<byte>, withReturn: bool)
    requires GoodLines(es) && (IsPlain(line) || (withReturn && forall j | 0 <= j < |line| :: line[j] != 10))
    ensures LinesOf(Spell(es) + (line + if withReturn then [13] else []))
         == EndedTexts(es) + if line == [] && !withReturn then [] else [line]
  {
    var tail := line + if withReturn then [13] else [];
    if es == [] {
      UnfinishedLine(line, withReturn);
      assert Spell(es) + tail == tail;
    } else {
      var end: seq<byte> := if es[0].withReturn then [13, 10] else [10];
      assert Spell(es) + tail == es[0].line + end + (Spell(es[1..]) + tail);
      EndedLine(es[0].line, es[0].withReturn, Spell(es[1..]) + tail);
      LinesWritten(es[1..], line, withReturn);
      assert EndedTexts(es) == [es[0].line] + EndedTexts(es[1..]);
    }
  }

  // ---- scanning a stream ----

  // The lines before `start` have been told; those from there on are to come.
  ghost predicate Progress(fd: int, all: seq<byte>, start: nat, told: seq<Delivery>, so: seq<Delivery>)
    requires start <= |all|
  {
    && told + Told(fd, Chomped(Finished(all[start..]))) == so + Told(fd, Chomped(Finished(all)))
    && Rest(all[start..]) == Rest(all)
  }

  lemma Begun(fd: int, all: seq<byte>, so: seq<Delivery>)
    ensures Progress(fd, all, 0, so, so)
  {
    assert all[0..] == all;
  }

  lemma Advance(fd: int, all: seq<byte>, start: nat, i: nat, told: seq<Delivery>, so: seq<Delivery>)
    requires start <= i < |all| && NEWLINE !in all[start..i] && all[i] == NEWLINE && Progress(fd, all, start, told, so)
    ensures Progress(fd, all, i + 1, told + [Delivery(fd, Chomp(all[start..i]))], so)
  {
    hide Finished, Rest, Chomped, Told, Chomp;
    var line, rest := all[start..i], all[i + 1..];
    assert all[start..] == line + [NEWLINE] + rest;
    LineFirst(line, rest);
    ToldFirst(fd, line, Finished(rest));
    var first, more := [Delivery(fd, Chomp(line))], Told(fd, Chomped(Finished(rest)));
    assert told + (first + more) == (told + first) + more;
  }

  lemma AllTold(fd: int, all: seq<byte>, start: nat, told: seq<Delivery>, so: seq<Delivery>)
    requires start <= |all| && NEWLINE !in all[start..] && Progress(fd, all, start, told, so)
    ensures told == so + Told(fd, Chomped(Finished(all))) && all[start..] == Rest(all)
  {
    NoLine(all[start..]);
    assert told + Told(fd, Chomped([])) == told;
  }

  // ---- the buffer of one descriptor ----

  // What the interface is told, in order.
  datatype Delivery = Delivery(fd: int, line: seq<byte>)

  class LineBuf {
    var data: array<byte>
    var len: nat

    ghost predicate Valid()
      reads this, data
    {
      && len <= data.Length && (len == 0 || len < data.Length) && NEWLINE !in data[..len]
    }

    ghost function Pending(): seq<byte>
      requires len <= data.Length
      reads this, data
    {
      data[..len]
    }

    constructor ()
      ensures Valid() && Pending() == [] && fresh(data)
    {
      data := new byte[0];
      len := 0;
    }

    // line_buf_append: room for a NUL is kept.
    method Append(chunk: seq<byte>)
      requires len <= data.Length
      modifies this, data
      ensures len < data.Length && data[..len] == old(Pending()) + chunk
      ensures data == old(data) || fresh(data)
    {
      ghost var was := Pending();
      if len + |chunk| + 1 > data.Length {
        var size: nat := if data.Length == 0 then 256 else data.Length;
        while len + |chunk| + 1 > size
          invariant size > 0
          decreases len + |chunk| + 1 - size
        {
          size := size * 2;
        }
        var more := new byte[size](i reads this, data requires 0 <= len <= data.Length => if 0 <= i < len then data[i] else 0);
        assert more[..len] == was;
        data := more;
      }
      forall i | 0 <= i < |chunk| {
        data[len + i] := chunk[i];
      }
      assert data[..len] == was;
      len := len + |chunk|;
      assert data[..len] == was + chunk;
      data[len] := 0;
    }

    // emit_line: the line is ended in place, without its carriage return.
    method Emit(fd: int, at: nat, n: nat, so: seq<Delivery>) returns (told: seq<Delivery>)
      requires at + n < data.Length
      modifies data
      ensures told == so + [Delivery(fd, Chomp(old(data[at..at + n])))]
      ensures forall k | 0 <= k < data.Length && !(at <= k <= at + n) :: data[k] == old(data[k])
    {
      ghost var line := data[at..at + n];
      var m := n;
      if m > 0 && data[at + m - 1] == RETURN {
        m := m - 1;
      }
      data[at + m] := 0;
      assert data[at..at + m] == line[..m];
      told := so + [Delivery(fd, data[at..at + m])];
    }

    // deliver_lines: every line that the chunk finishes is told at once, and
    // the rest waits.
    method Deliver(fd: int, chunk: seq<byte>, so: seq<Delivery>) returns (told: seq<Delivery>)
      requires Valid()
      modifies this, data
      ensures Valid() && (data == old(data) || fresh(data))
      ensures Pending() == Rest(old(Pending()) + chunk)
      ensures told == so + Told(fd, Chomped(Finished(old(Pending()) + chunk)))
    {
      hide Finished, Rest, Chomped, Told;
      ghost var all := Pending() + chunk;
      Append(chunk);
      var start;
      told, start := Scan(fd, so, all);
      ghost var rest := all[start..];
      AllTold(fd, all, start, told, so);
      if start > 0 {
        MoveDown(start);
        data[len] := 0;
      }
      assert data[..len] == rest;
    }

    // The loop over the bytes.
    method Scan(fd: int, so: seq<Delivery>, ghost all: seq<byte>) returns (told: seq<Delivery>, start: nat)
      requires len == |all| < data.Length && data[..len] == all
      modifies data
      ensures start <= len && NEWLINE !in all[start..] && data[start..len] == all[start..]
      ensures Progress(fd, all, start, told, so)
    {
      hide Progress, Chomp;
      told, start := so, 0;
      Begun(fd, all, so);
      for i := 0 to len
        invariant start <= i && NEWLINE !in all[start..i]
        invariant forall k | start <= k < len :: data[k] == all[k]
        invariant Progress(fd, all, start, told, so)
      {
        if data[i] == NEWLINE {
          Advance(fd, all, start, i, told, so);
          assert data[start..start + (i - start)] == all[start..i];
          told := Emit(fd, start, i - start, told);
          start := i + 1;
        } else {
          assert all[start..i + 1] == all[start..i] + [all[i]];
        }
      }
      assert all[start..] == all[start..len];
    }

    // memmove to the front.
    method MoveDown(start: nat)
      requires start <= len < data.Length
      modifies data, this`len
      ensures len == old(len) - start && data[..len] == old(data[start..len])
    {
      var n := len - start;
      forall i | 0 <= i < n {
        data[i] := data[start + i];
      }
      len := n;
    }

    // flush_pending_lines, for one descriptor.
    method Flush(fd: int, so: seq<Delivery>) returns (told: seq<Delivery>)
      requires Valid()
      modifies this`len, data
      ensures Valid() && Pending() == []
      ensures told == so + if old(Pending()) == [] then [] else [Delivery(fd, Chomp(old(Pending())))]
    {
      told := so;
      if len > 0 {
        var n := len;
        len := 0;
        assert data[0..n] == data[..n];
        told := Emit(fd, 0, n, told);
      }
    }
  }

  ghost function Told(fd: int, lines: seq<seq<byte>>): (r: seq<Delivery>)
    ensures |r| == |lines|
  {
    seq(|lines|, i requires 0 <= i < |lines| => Delivery(fd, lines[i]))
  }

  lemma ToldFirst(fd: int, line: seq<byte>, rest: seq<seq<byte>>)
    ensures Told(fd, Chomped([line] + rest)) == [Delivery(fd, Chomp(line))] + Told(fd, Chomped(rest))
  {
  }

  // ---- both descriptors of a job ----

  // The lines told of one descriptor.
  ghost function Of(told: seq<Delivery>, fd: int): seq<seq<byte>> {
    if told == [] then []
    else
      var before, last := Of(told[..|told| - 1], fd), told[|told| - 1];
      if last.fd == fd then before + [last.line] else before
  }

  lemma {:induction false} OfConcat(a: seq<Delivery>, b: seq<Delivery>, fd: int)
    ensures Of(a + b, fd) == Of(a, fd) + Of(b, fd)
    decreases |b|
  {
    if b == [] {
      assert a + b == a && Of(a, fd) + Of(b, fd) == Of(a, fd);
    } else {
      var k := |b| - 1;
      assert (a + b)[..|a| + k] == a + b[..k] && (a + b)[|a| + k] == b[k];
      OfConcat(a, b[..k], fd);
    }
  }

  lemma {:induction false} OfTold(from: int, lines: seq<seq<byte>>, fd: int)
    ensures Of(Told(from, lines), fd) == if from == fd then lines else []
    decreases |lines|
  {
    if lines != [] {
      var k := |lines| - 1;
      assert Told(from, lines)[..k] == Told(from, lines[..k]);
      OfTold(from, lines[..k], fd);
    }
  }

  // A read of some bytes from one descriptor.
  datatype Chunk = Chunk(fd: int, data: seq<byte>)

  // All that was read from one descriptor.
  ghost function Stream(chunks: seq<Chunk>, fd: int): seq<byte> {
    if chunks == [] then []
    else
      var before, last := Stream(chunks[..|chunks| - 1], fd), chunks[|chunks| - 1];
      if last.fd == fd then before + last.data else before
  }

  // ---- what a job's output does, on values ----

  // What the buffers of both descriptors hold.
  datatype Waiting = Waiting(first: seq<byte>, second: seq<byte>)

  const NONE_WAITING := Waiting([], [])

  // A read: the lines it finishes, and what then waits.  What is read from any
  // other descriptor is not for lines.
  ghost function Finishes(w: Waiting, chunk: Chunk): seq<Delivery> {
    if chunk.fd == FIRST_CAPTURED then Told(chunk.fd, Chomped(Finished(w.first + chunk.data)))
    else if chunk.fd == FIRST_CAPTURED + 1 then Told(chunk.fd, Chomped(Finished(w.second + chunk.data)))
    else []
  }

  ghost function Leaves(w: Waiting, chunk: Chunk): Waiting {
    if chunk.fd == FIRST_CAPTURED then w.(first := Rest(w.first + chunk.data))
    else if chunk.fd == FIRST_CAPTURED + 1 then w.(second := Rest(w.second + chunk.data))
    else w
  }

  // The end: what still waits is told.
  ghost function Flushes(w: Waiting): seq<Delivery> {
    Tail(FIRST_CAPTURED, w.first) + Tail(FIRST_CAPTURED + 1, w.second)
  }

  ghost function Tail(fd: int, rest: seq<byte>): seq<Delivery> {
    if rest == [] then [] else [Delivery(fd, Chomp(rest))]
  }

  // The lines told are those finished so far, and the rest is waiting.
  ghost predicate Keeps(told: seq<Delivery>, w: Waiting, chunks: seq<Chunk>) {
    && Kept(told, w.first, chunks, FIRST_CAPTURED) && Kept(told, w.second, chunks, FIRST_CAPTURED + 1)
  }

  ghost predicate Kept(told: seq<Delivery>, rest: seq<byte>, chunks: seq<Chunk>, fd: int) {
    rest == Rest(Stream(chunks, fd)) && Of(told, fd) == Chomped(Finished(Stream(chunks, fd)))
  }

  // The lines told are all there are.
  ghost predicate SaidAll(told: seq<Delivery>, chunks: seq<Chunk>) {
    forall fd | FIRST_CAPTURED <= fd < FIRST_CAPTURED + N_CAPTURED :: Of(told, fd) == LinesOf(Stream(chunks, fd))
  }

  lemma KeepsNothing()
    ensures Keeps([], NONE_WAITING, [])
  {
  }

  lemma KeepsMore(told: seq<Delivery>, w: Waiting, chunks: seq<Chunk>, chunk: Chunk)
    requires Keeps(told, w, chunks)
    ensures Keeps(told + Finishes(w, chunk), Leaves(w, chunk), chunks + [chunk])
  {
    hide Rest, Finished, Chomped, Of, Stream, Told;
    StreamMore(chunks, chunk, FIRST_CAPTURED);
    StreamMore(chunks, chunk, FIRST_CAPTURED + 1);
    var stream, more := Stream(chunks, chunk.fd), told + Finishes(w, chunk);
    if FIRST_CAPTURED <= chunk.fd < FIRST_CAPTURED + N_CAPTURED {
      PiecesConcat(stream, chunk.data);
      MoreTold(told, more, chunk.fd, stream, chunk.data);
    } else {
      assert more == told;
    }
  }

  lemma KeepsToTheEnd(told: seq<Delivery>, w: Waiting, chunks: seq<Chunk>)
    requires Keeps(told, w, chunks)
    ensures SaidAll(told + Flushes(w), chunks)
  {
    hide Rest, Finished, Chomped, Of, Stream;
    var middle := told + Tail(FIRST_CAPTURED, w.first);
    var all := middle + Tail(FIRST_CAPTURED + 1, w.second);
    assert told + Flushes(w) == all;
    LastTold(told, middle, FIRST_CAPTURED, w.first);
    LastTold(middle, all, FIRST_CAPTURED + 1, w.second);
    forall fd | FIRST_CAPTURED <= fd < FIRST_CAPTURED + N_CAPTURED
      ensures Of(all, fd) == LinesOf(Stream(chunks, fd))
    {
      assert fd == FIRST_CAPTURED || fd == FIRST_CAPTURED + 1;
    }
  }

  // ---- the job's buffers ----

  class JobOutput {
    const first: LineBuf
    const second: LineBuf
    var told: seq<Delivery>
    ghost var chunks: seq<Chunk>

    ghost predicate Valid()
      reads this, first, second, first.data, second.data
    {
      && first != second && first.data != second.data && first.Valid() && second.Valid()
      && Keeps(told, Holds(), chunks)
    }

    ghost function Holds(): Waiting
      requires first.len <= first.data.Length && second.len <= second.data.Length
      reads first, second, first.data, second.data
    {
      Waiting(first.Pending(), second.Pending())
    }

    constructor ()
      ensures Valid() && chunks == [] && told == [] && Holds() == NONE_WAITING
      ensures fresh(first) && fresh(second) && fresh(first.data) && fresh(second.data)
    {
      first := new LineBuf();
      second := new LineBuf();
      told, chunks := [], [];
      new;
      KeepsNothing();
    }

    // deliver_lines
    method Deliver(fd: int, data: seq<byte>)
      requires Valid()
      modifies this, first, second, first.data, second.data
      ensures Valid() && chunks == old(chunks) + [Chunk(fd, data)]
      ensures told == old(told) + Finishes(old(Holds()), Chunk(fd, data)) && Holds() == Leaves(old(Holds()), Chunk(fd, data))
      ensures first.data == old(first.data) || fresh(first.data)
      ensures second.data == old(second.data) || fresh(second.data)
    {
      hide Rest, Finished, Chomped, Of, Stream, Keeps;
      KeepsMore(told, Holds(), chunks, Chunk(fd, data));
      if fd == FIRST_CAPTURED {
        told := first.Deliver(fd, data, told);
      } else if fd == FIRST_CAPTURED + 1 {
        told := second.Deliver(fd, data, told);
      } else {
        assert told + [] == told;
      }
      chunks := chunks + [Chunk(fd, data)];
    }

    // flush_pending_lines
    method Flush()
      requires Valid()
      modifies this`told, first`len, second`len, first.data, second.data
      ensures told == old(told) + Flushes(old(Holds())) && SaidAll(told, chunks)
    {
      hide Rest, Finished, Chomped, Of, Stream, Keeps;
      KeepsToTheEnd(told, Holds(), chunks);
      ghost var start, w := told, Holds();
      told := first.Flush(FIRST_CAPTURED, told);
      told := second.Flush(FIRST_CAPTURED + 1, told);
      assert told == start + Tail(FIRST_CAPTURED, w.first) + Tail(FIRST_CAPTURED + 1, w.second);
    }
  }

  lemma StreamMore(chunks: seq<Chunk>, chunk: Chunk, fd: int)
    ensures Stream(chunks + [chunk], fd) == if chunk.fd == fd then Stream(chunks, fd) + chunk.data else Stream(chunks, fd)
  {
    assert (chunks + [chunk])[..|chunks|] == chunks;
  }

  lemma MoreTold(was: seq<Delivery>, told: seq<Delivery>, fd: int, stream: seq<byte>, data: seq<byte>)
    requires told == was + Told(fd, Chomped(Finished(Rest(stream) + data)))
    requires Finished(stream + data) == Finished(stream) + Finished(Rest(stream) + data)
    ensures Of(was, fd) == Chomped(Finished(stream)) ==> Of(told, fd) == Chomped(Finished(stream + data))
    ensures forall other | other != fd :: Of(told, other) == Of(was, other)
  {
    var lines := Chomped(Finished(Rest(stream) + data));
    ChompedConcat(Finished(stream), Finished(Rest(stream) + data));
    forall other
      ensures Of(told, other) == Of(was, other) + if other == fd then lines else []
    {
      OfConcat(was, Told(fd, lines), other);
      OfTold(fd, lines, other);
    }
  }

  lemma LastTold(was: seq<Delivery>, told: seq<Delivery>, fd: int, rest: seq<byte>)
    requires told == was + if rest == [] then [] else [Delivery(fd, Chomp(rest))]
    ensures forall f :: Of(told, f) == Of(was, f) + if f == fd && rest != [] then [Chomp(rest)] else []
  {
    var more := if rest == [] then [] else [Delivery(fd, Chomp(rest))];
    forall f
      ensures Of(told, f) == Of(was, f) + if f == fd && rest != [] then [Chomp(rest)] else []
    {
      OfConcat(was, more, f);
      if rest != [] {
        assert more[..0] == [];
      }
    }
  }

  // Main result: however a job's output is cut into reads, and the two streams
  // are interleaved, the lines told are those of each stream as a whole.
  method DeliverAll(chunks: seq<Chunk>) returns (told: seq<Delivery>)
    ensures forall fd | FIRST_CAPTURED <= fd < FIRST_CAPTURED + N_CAPTURED :: Of(told, fd) == LinesOf(Stream(chunks, fd))
  {
    hide Of, LinesOf, Stream, Keeps, Finishes, Leaves, Flushes;
    var job := new JobOutput();
    for k := 0 to |chunks|
      invariant job.Valid() && job.chunks == chunks[..k] && fresh(job)
      invariant fresh(job.first) && fresh(job.second) && fresh(job.first.data) && fresh(job.second.data)
    {
      hide JobOutput.Valid;
      assert chunks[..k + 1] == chunks[..k] + [Chunk(chunks[k].fd, chunks[k].data)];
      job.Deliver(chunks[k].fd, chunks[k].data);
    }
    assert chunks[..|chunks|] == chunks;
    job.Flush();
    told := job.told;
  }

  // The same of the lines as they were written, for a descriptor of a job.
  method DeliverWritten(chunks: seq<Chunk>, fd: int, ghost es: seq<Ended>, ghost line: seq<byte>, ghost withReturn: bool)
      returns (told: seq<Delivery>)
    requires fd == 1 || fd == 2
    requires GoodLines(es) && (IsPlain(line) || (withReturn && forall j | 0 <= j < |line| :: line[j] != 10))
    requires Stream(chunks, fd) == Spell(es) + (line + if withReturn then [13] else [])
    ensures Of(told, fd) == EndedTexts(es) + if line == [] && !withReturn then [] else [line]
  {
    LinesWritten(es, line, withReturn);
    told := DeliverAll(chunks);
  }
}
