// The ring of text lines of src/yc-circular-buffer.c: two rings, one of bytes
// and one of line records, that stand for a bounded queue of lines.  A record
// holds where its line starts; how long it is must be worked out.
module LineRing {
  import opened Basics
  import Utf8

  const MAX_SIZE := 0x8000_0000

  datatype Line = Line(text: seq<byte>, truncated: bool, data: seq<byte>)

  datatype LineInfo = LineInfo(truncated: bool, start: nat)

  // ---- going round a ring of m places ----

  function Back(p: nat, n: nat, m: nat): (q: nat)
    requires (p < m || p == 0 == m) && n <= m
    ensures q < m || q == 0 == m
  {
    if n <= p then p - n else p + m - n
  }

  function Forward(p: nat, n: nat, m: nat): (q: nat)
    requires (p < m || p == 0 == m) && n <= m
    ensures q < m || q == 0 == m
  {
    if p + n < m then p + n else p + n - m
  }

  // ---- the queue ----

  // All bytes, oldest first.
  ghost function Flat(queue: seq<Line>): seq<byte> {
    if queue == [] then [] else queue[0].text + Flat(queue[1..])
  }

  ghost function Size(queue: seq<Line>): nat {
    |Flat(queue)|
  }

  lemma {:induction false} FlatConcat(a: seq<Line>, b: seq<Line>)
    ensures Flat(a + b) == Flat(a) + Flat(b)
  {
    if a == [] {
      assert a + b == b;
    } else {
      assert (a + b)[1..] == a[1..] + b;
      FlatConcat(a[1..], b);
    }
  }

  lemma FlatOne(line: Line)
    ensures Flat([line]) == line.text
  {
    assert [line][1..] == [];
  }

  lemma NoBytes()
    ensures Flat([]) == [] && Size([]) == 0
  {
  }

  // Line i and the lines after it are the end of the whole.
  lemma FlatFrom(queue: seq<Line>, i: nat)
    requires i <= |queue|
    ensures Flat(queue) == Flat(queue[..i]) + Flat(queue[i..])
    ensures i < |queue| ==> Flat(queue[i..]) == queue[i].text + Flat(queue[i + 1..])
    ensures i < |queue| ==> Size(queue[i..]) == |queue[i].text| + Size(queue[i + 1..]) <= Size(queue)
  {
    assert queue == queue[..i] + queue[i..];
    FlatConcat(queue[..i], queue[i..]);
    if i < |queue| {
      assert queue[i..][1..] == queue[i + 1..];
    }
  }

  // How many of the oldest lines must go for one of n bytes.
  ghost function Evictions(queue: seq<Line>, n: nat, size: nat, maxLines: nat): (k: nat)
    requires n <= size && maxLines > 0
    ensures k <= |queue|
  {
    if queue == [] || (Size(queue) + n <= size && |queue| < maxLines) then 0
    else 1 + Evictions(queue[1..], n, size, maxLines)
  }

  // They are as few as can be.
  lemma {:induction false} FewestEvictions(queue: seq<Line>, n: nat, size: nat, maxLines: nat)
    requires n <= size && maxLines > 0
    ensures var k := Evictions(queue, n, size, maxLines);
      && Size(queue[k..]) + n <= size && |queue| - k < maxLines
      && forall j: nat | j < k :: Size(queue[j..]) + n > size || |queue| - j >= maxLines
  {
    var k := Evictions(queue, n, size, maxLines);
    assert queue[0..] == queue;
    if k > 0 {
      FewestEvictions(queue[1..], n, size, maxLines);
      assert queue[1..][k - 1..] == queue[k..];
      forall j: nat | j < k
        ensures Size(queue[j..]) + n > size || |queue| - j >= maxLines
      {
        if j > 0 {
          assert queue[1..][j - 1..] == queue[j..];
        }
      }
    }
  }

  // A line that fills the ring is told from an empty one only when it is alone.
  predicate Fills(line: Line, size: nat) {
    |line.text| == size > 0
  }

  ghost predicate Ambiguous(queue: seq<Line>, size: nat) {
    |queue| > 1 && exists i :: 0 <= i < |queue| && Fills(queue[i], size)
  }

  // None of the lines that must go for n bytes fills the ring with others behind it.
  ghost predicate Plain(queue: seq<Line>, n: nat, size: nat, maxLines: nat)
    requires n <= size && maxLines > 0
  {
    forall i | 0 <= i < Evictions(queue, n, size, maxLines) && i < |queue| - 1 :: !Fills(queue[i], size)
  }

  // Otherwise fewer lines than all of them would have been enough.
  lemma TooManyGo(queue: seq<Line>, n: nat, size: nat, maxLines: nat)
    requires n <= size && 0 < maxLines && |queue| <= maxLines && Size(queue) <= size && !Plain(queue, n, size, maxLines)
    ensures Evictions(queue, n, size, maxLines) < |queue|
  {
    var i :| 0 <= i < Evictions(queue, n, size, maxLines) && i < |queue| - 1 && Fills(queue[i], size);
    FlatFrom(queue, i);
    FewestEvictions(queue, n, size, maxLines);
    assert Size(queue[i + 1..]) == 0;
  }

  // An empty line needs room among the records only.
  lemma EvictionsForNone(queue: seq<Line>, size: nat, maxLines: nat)
    requires Size(queue) <= size && |queue| <= maxLines && maxLines > 0
    ensures Evictions(queue, 0, size, maxLines) == if |queue| == maxLines then 1 else 0
  {
    if queue != [] {
      FlatFrom(queue, 0);
      assert queue[0..] == queue;
    }
  }

  // ---- what the ring makes of the queue ----

  // The lines it holds, and whether its occupancy has gone wrong: then all lines
  // are empty, but the ring takes itself for full.
  datatype State = State(queue: seq<Line>, strayed: bool)

  // Will it take a line that fills it for an empty one?
  ghost predicate Astray(s: State, n: nat, size: nat, maxLines: nat)
    requires n <= size && maxLines > 0
  {
    s.strayed || !Plain(s.queue, n, size, maxLines)
  }

  // How many lines really go for one of n bytes: if so, all of them.
  ghost function Goes(s: State, n: nat, size: nat, maxLines: nat): (k: nat)
    requires n <= size && maxLines > 0
    ensures k <= |s.queue|
  {
    if Astray(s, n, size, maxLines) && n > 0 then |s.queue| else Evictions(s.queue, n, size, maxLines)
  }

  ghost function After(s: State, line: Line, size: nat, maxLines: nat): State
    requires |line.text| <= size && maxLines > 0
  {
    var n := |line.text|;
    State(s.queue[Goes(s, n, size, maxLines)..] + [line], Astray(s, n, size, maxLines) && n == 0)
  }

  // The eviction loop after k rounds: it is as it should be, or has strayed.
  ghost predicate Round(start: State, k: nat, queue: seq<Line>, strayed: bool, n: nat, size: nat, maxLines: nat, occupancy: nat)
    requires n <= size && maxLines > 0
  {
    && k <= |start.queue| <= maxLines && Size(start.queue) <= size && queue == start.queue[k..] && Size(queue) <= occupancy <= size
    && (start.strayed ==> strayed && Size(start.queue) == 0 < size && |start.queue| > 1)
    && (if strayed then
          && Astray(start, n, size, maxLines) && Size(queue) == 0 < size
          && occupancy == (if queue == [] then 0 else size) && (n == 0 ==> queue != [])
        else
          && occupancy == Size(queue)
          && k + Evictions(queue, n, size, maxLines) == Evictions(start.queue, n, size, maxLines)
          && forall i | 0 <= i < k && i < |start.queue| - 1 :: !Fills(start.queue[i], size))
    && (n == 0 && k > 0 ==> k == 1 && |start.queue| == maxLines)
  }

  lemma NoRound(start: State, n: nat, size: nat, maxLines: nat, occupancy: nat)
    requires n <= size && maxLines > 0 && |start.queue| <= maxLines && Size(start.queue) <= occupancy <= size
    requires if start.strayed then Size(start.queue) == 0 < occupancy == size && |start.queue| > 1
             else occupancy == Size(start.queue)
    ensures Round(start, 0, start.queue, start.strayed, n, size, maxLines, occupancy)
  {
    assert start.queue[0..] == start.queue;
  }

  lemma RoundBounds(start: State, k: nat, queue: seq<Line>, strayed: bool, n: nat, size: nat, maxLines: nat, occupancy: nat)
    requires n <= size && maxLines > 0 && Round(start, k, queue, strayed, n, size, maxLines, occupancy)
    ensures queue == [] ==> occupancy == 0
  {
    NoBytes();
  }

  // One more round: the oldest line goes, with what the ring takes it for.
  lemma NextRound(start: State, k: nat, queue: seq<Line>, strayed: bool, n: nat, size: nat, maxLines: nat, occupancy: nat)
    requires n <= size && maxLines > 0 && Round(start, k, queue, strayed, n, size, maxLines, occupancy)
    requires queue != [] && (n + occupancy > size || |queue| == maxLines)
    ensures var line := queue[0];
      var taken := if |queue| == 1 && (line.text == [] || Fills(line, size)) then occupancy
                   else if Fills(line, size) then 0 else |line.text|;
      taken <= occupancy && Round(start, k + 1, queue[1..], strayed || (Fills(line, size) && |queue| > 1), n, size, maxLines, occupancy - taken)
  {
    hide Flat;
    NoBytes();
    FlatFrom(queue, 0);
    assert queue[0..] == queue && queue[0] == start.queue[k] && queue[1..] == start.queue[k + 1..];
  }

  lemma LastRound(start: State, k: nat, queue: seq<Line>, strayed: bool, n: nat, size: nat, maxLines: nat, occupancy: nat)
    requires n <= size && maxLines > 0 && Round(start, k, queue, strayed, n, size, maxLines, occupancy)
    requires n + occupancy <= size && |queue| < maxLines
    ensures k == Goes(start, n, size, maxLines)
    ensures if Astray(start, n, size, maxLines) && n == 0 then Size(queue) == 0 < occupancy == size && queue != []
            else occupancy == Size(queue)
  {
    EvictionsForNone(start.queue, size, maxLines);
  }

  // Lines that are all shorter than the ring, or none of which is empty.
  ghost predicate Unmistakable(queue: seq<Line>, size: nat) {
    || (forall i | 0 <= i < |queue| :: !Fills(queue[i], size))
    || (forall i | 0 <= i < |queue| :: queue[i].text != [])
  }

  // Every other line takes a byte at least.
  lemma {:induction false} OthersTakeRoom(queue: seq<Line>, i: nat)
    requires i < |queue| && forall k | 0 <= k < |queue| :: queue[k].text != []
    ensures Size(queue) >= |queue[i].text| + |queue| - 1
    decreases |queue|
  {
    if |queue| > 1 {
      OthersTakeRoom(queue[1..], if i == 0 then 0 else i - 1);
      assert Size(queue) == |queue[0].text| + Size(queue[1..]);
    }
  }

  lemma UnmistakableIsPlain(queue: seq<Line>, n: nat, size: nat, maxLines: nat)
    requires n <= size && 0 < maxLines && Size(queue) <= size && Unmistakable(queue, size)
    ensures Plain(queue, n, size, maxLines) && !Ambiguous(queue, size)
  {
    if exists i :: 0 <= i < |queue| && Fills(queue[i], size) {
      var i :| 0 <= i < |queue| && Fills(queue[i], size);
      OthersTakeRoom(queue, i);
    }
  }

  // Then it goes as it should.
  lemma GoesRight(queue: seq<Line>, line: Line, size: nat, maxLines: nat)
    requires |line.text| <= size && 0 < maxLines && Size(queue) <= size && Unmistakable(queue, size)
    ensures var s, k := State(queue, false), Evictions(queue, |line.text|, size, maxLines);
      Goes(s, |line.text|, size, maxLines) == k && After(s, line, size, maxLines) == State(queue[k..] + [line], false)
  {
    hide Evictions, Plain;
    UnmistakableIsPlain(queue, |line.text|, size, maxLines);
  }

  // ---- how the rings stand for the queue ----

  // The byte at distance d before the write position is the d-th from the end.
  ghost predicate BytesAt(buf: seq<byte>, writePos: nat, flat: seq<byte>) {
    && |flat| <= |buf| && (writePos < |buf| || writePos == 0 == |buf|)
    && forall d: nat | 1 <= d <= |flat| :: buf[Back(writePos, d, |buf|)] == flat[|flat| - d]
  }

  // Record k before the write index is that of the k-th line from the end.
  ghost predicate RecordsAt(lines: seq<LineInfo>, data: seq<seq<byte>>, writeLine: nat, queue: seq<Line>, writePos: nat, size: nat) {
    && |queue| <= |lines| == |data| && writeLine < |lines|
    && (writePos < size || writePos == 0 == size) && Size(queue) <= size
    && forall i | 0 <= i < |queue| :: RecordIs(lines, data, writeLine, queue, i, writePos, size)
  }

  ghost predicate RecordIs(lines: seq<LineInfo>, data: seq<seq<byte>>, writeLine: nat, queue: seq<Line>, i: nat, writePos: nat, size: nat)
    requires i < |queue| <= |lines| == |data| && writeLine < |lines| && (writePos < size || writePos == 0 == size)
  {
    var at := Back(writeLine, |queue| - i, |lines|);
    && Size(queue[i..]) <= size
    && lines[at] == LineInfo(queue[i].truncated, Back(writePos, Size(queue[i..]), size)) && data[at] == queue[i].data
  }

  // The bytes of line i, at the place where it starts.
  lemma BytesOfLine(buf: seq<byte>, writePos: nat, queue: seq<Line>, i: nat, j: nat)
    requires BytesAt(buf, writePos, Flat(queue)) && i < |queue| && j < |queue[i].text|
    ensures Size(queue[i..]) <= |buf|
    ensures buf[Forward(Back(writePos, Size(queue[i..]), |buf|), j, |buf|)] == queue[i].text[j]
  {
    hide Flat;
    FlatFrom(queue, i);
    var end := Flat(queue[i..]);
    var d := |end| - j;
    assert Forward(Back(writePos, |end|, |buf|), j, |buf|) == Back(writePos, d, |buf|);
    FromTheEnd(Flat(queue[..i]), end, d);
    assert end[j] == queue[i].text[j];
  }

  lemma FromTheEnd(a: seq<byte>, b: seq<byte>, d: nat)
    requires 1 <= d <= |b|
    ensures (a + b)[|a + b| - d] == b[|b| - d]
  {
  }

  // Dropping the oldest line moves nothing.
  lemma DropOldest(buf: seq<byte>, lines: seq<LineInfo>, data: seq<seq<byte>>, writeLine: nat, queue: seq<Line>, writePos: nat)
    requires BytesAt(buf, writePos, Flat(queue)) && RecordsAt(lines, data, writeLine, queue, writePos, |buf|) && queue != []
    ensures BytesAt(buf, writePos, Flat(queue[1..])) && RecordsAt(lines, data, writeLine, queue[1..], writePos, |buf|)
  {
    hide RecordIs, Flat, BytesAt;
    var rest := queue[1..];
    FlatFrom(queue, 0);
    assert queue[0..] == queue;
    DropBytes(buf, writePos, queue[0].text, Flat(rest));
    forall i | 0 <= i < |rest|
      ensures RecordIs(lines, data, writeLine, rest, i, writePos, |buf|)
    {
      RecordShifts(lines, data, writeLine, queue, i + 1, writePos, |buf|);
    }
  }

  lemma DropBytes(buf: seq<byte>, writePos: nat, first: seq<byte>, rest: seq<byte>)
    requires BytesAt(buf, writePos, first + rest)
    ensures BytesAt(buf, writePos, rest)
  {
    forall d: nat | 1 <= d <= |rest|
      ensures buf[Back(writePos, d, |buf|)] == rest[|rest| - d]
    {
      FromTheEnd(first, rest, d);
    }
  }

  lemma RecordShifts(lines: seq<LineInfo>, data: seq<seq<byte>>, writeLine: nat, queue: seq<Line>, i: nat, writePos: nat, size: nat)
    requires 0 < i < |queue| <= |lines| == |data| && writeLine < |lines| && (writePos < size || writePos == 0 == size)
    requires RecordIs(lines, data, writeLine, queue, i, writePos, size)
    ensures RecordIs(lines, data, writeLine, queue[1..], i - 1, writePos, size)
  {
    hide Flat;
    assert queue[1..][i - 1..] == queue[i..];
  }

  // Bytes written from the write position on come after the others.
  lemma AddBytes(buf: seq<byte>, buf': seq<byte>, writePos: nat, flat: seq<byte>, text: seq<byte>)
    requires BytesAt(buf, writePos, flat) && |flat| + |text| <= |buf| == |buf'|
    requires forall j | 0 <= j < |text| :: buf'[Forward(writePos, j, |buf|)] == text[j]
    requires forall k | 0 <= k < |buf| && (forall j | 0 <= j < |text| :: k != Forward(writePos, j, |buf|)) :: buf'[k] == buf[k]
    ensures BytesAt(buf', Forward(writePos, |text|, |buf|), flat + text)
  {
    var m, writePos', more := |buf|, Forward(writePos, |text|, |buf|), flat + text;
    forall d: nat | 1 <= d <= |more|
      ensures buf'[Back(writePos', d, m)] == more[|more| - d]
    {
      if d <= |text| {
        assert Back(writePos', d, m) == Forward(writePos, |text| - d, m);
      } else {
        assert Back(writePos', d, m) == Back(writePos, d - |text|, m);
        assert buf[Back(writePos, d - |text|, m)] == flat[|flat| - (d - |text|)];
      }
    }
  }

  lemma AddRecord(lines: seq<LineInfo>, data: seq<seq<byte>>, writeLine: nat, queue: seq<Line>, writePos: nat, size: nat, line: Line)
    requires RecordsAt(lines, data, writeLine, queue, writePos, size) && |queue| < |lines| && Size(queue) + |line.text| <= size
    ensures var lines', data' := lines[writeLine := LineInfo(line.truncated, writePos)], data[writeLine := line.data];
      RecordsAt(lines', data', Forward(writeLine, 1, |lines|), queue + [line], Forward(writePos, |line.text|, size), size)
  {
    var lines', data' := lines[writeLine := LineInfo(line.truncated, writePos)], data[writeLine := line.data];
    var more, writeLine', writePos' := queue + [line], Forward(writeLine, 1, |lines|), Forward(writePos, |line.text|, size);
    hide Flat, RecordIs;
    FlatConcat(queue, [line]);
    FlatOne(line);
    forall i | 0 <= i < |more|
      ensures RecordIs(lines', data', writeLine', more, i, writePos', size)
    {
      if i < |queue| {
        RecordStays(lines, data, writeLine, queue, i, writePos, size, line);
      } else {
        RecordNew(lines, data, writeLine, queue, writePos, size, line);
      }
    }
  }

  lemma RecordStays(lines: seq<LineInfo>, data: seq<seq<byte>>, writeLine: nat, queue: seq<Line>, i: nat, writePos: nat, size: nat, line: Line)
    requires i < |queue| < |lines| == |data| && writeLine < |lines| && (writePos < size || writePos == 0 == size)
    requires Size(queue) + |line.text| <= size && RecordIs(lines, data, writeLine, queue, i, writePos, size)
    ensures var lines', data' := lines[writeLine := LineInfo(line.truncated, writePos)], data[writeLine := line.data];
      RecordIs(lines', data', Forward(writeLine, 1, |lines|), queue + [line], i, Forward(writePos, |line.text|, size), size)
  {
    hide Flat;
    var more := queue + [line];
    assert more[i..] == queue[i..] + [line] && more[i] == queue[i];
    FlatConcat(queue[i..], [line]);
    FlatOne(line);
    FlatFrom(queue, i);
    assert Back(Forward(writeLine, 1, |lines|), |more| - i, |lines|) == Back(writeLine, |queue| - i, |lines|) != writeLine;
  }

  lemma RecordNew(lines: seq<LineInfo>, data: seq<seq<byte>>, writeLine: nat, queue: seq<Line>, writePos: nat, size: nat, line: Line)
    requires |queue| < |lines| == |data| && writeLine < |lines| && (writePos < size || writePos == 0 == size)
    requires |line.text| <= size
    ensures var lines', data' := lines[writeLine := LineInfo(line.truncated, writePos)], data[writeLine := line.data];
      RecordIs(lines', data', Forward(writeLine, 1, |lines|), queue + [line], |queue|, Forward(writePos, |line.text|, size), size)
  {
    var more := queue + [line];
    assert more[|queue|..] == [line];
    FlatOne(line);
    assert Back(Forward(writeLine, 1, |lines|), 1, |lines|) == writeLine;
  }

  // ---- cutting long lines ----

  predicate IsInitial(b: byte) {
    b < 0x80 || b >= 0xC0
  }

  // The last place not past n at which a code point can begin, or 0.
  function CutAt(text: seq<byte>, n: nat): (k: nat)
    requires n < |text|
    ensures k <= n && (k == 0 || IsInitial(text[k]))
    ensures forall j | k < j <= n :: !IsInitial(text[j])
  {
    if n == 0 || IsInitial(text[n]) then n else CutAt(text, n - 1)
  }

  // Only the first byte of an encoding can begin a code point.
  lemma InitialOnce(cp: nat)
    requires Utf8.IsCodePoint(cp)
    ensures var s := Utf8.Encode(cp); IsInitial(s[0]) && forall i | 0 < i < |s| :: !IsInitial(s[i])
  {
  }

  lemma {:induction false} CutSkips(text: seq<byte>, n: nat, m: nat)
    requires 0 < m <= n < |text| && IsInitial(text[m])
    ensures CutAt(text, n) == m + CutAt(text[m..], n - m)
  {
    if n > m && !IsInitial(text[n]) {
      CutSkips(text, n - 1, m);
    }
  }

  // Within the first of two parts ...
  lemma {:induction false} CutFalls(text: seq<byte>, n: nat)
    requires n < |text| && forall j | 0 < j <= n :: !IsInitial(text[j])
    ensures CutAt(text, n) == 0
  {
    if n > 0 {
      CutFalls(text, n - 1);
    }
  }

  // ... or after it.
  lemma CutBeyond(first: seq<byte>, rest: seq<byte>, n: nat)
    requires 0 < |first| <= n < |first + rest| && IsInitial(rest[0])
    ensures var k := CutAt(rest, n - |first|); (first + rest)[..CutAt(first + rest, n)] == first + rest[..k]
  {
    var text, m := first + rest, |first|;
    assert text[m..] == rest && text[m] == rest[0];
    CutSkips(text, n, m);
  }

  // A text of whole code points is cut to whole code points: the first few.
  lemma {:induction false} CutBetweenCodePoints(cps: seq<nat>, n: nat) returns (kept: nat)
    requires Utf8.CodePoints(cps) && n < |Utf8.EncodeAll(cps)|
    ensures kept < |cps| && Utf8.CodePoints(cps[..kept]) && Utf8.CodePoints(cps[..kept + 1])
    ensures var text := Utf8.EncodeAll(cps); text[..CutAt(text, n)] == Utf8.EncodeAll(cps[..kept])
    ensures |Utf8.EncodeAll(cps[..kept])| <= n < |Utf8.EncodeAll(cps[..kept + 1])|
    decreases |cps|
  {
    hide CutAt, Utf8.Encode, IsInitial;
    assert Utf8.IsCodePoint(cps[0]);
    var first, rest := Utf8.Encode(cps[0]), Utf8.EncodeAll(cps[1..]);
    var text := first + rest;
    InitialOnce(cps[0]);
    if n < |first| {
      kept := 0;
      CutFalls(text, n);
      OneEncoded(cps[0]);
      assert cps[..1] == [cps[0]];
    } else {
      assert cps[1..][0] == cps[1];
      InitialOnce(cps[1]);
      assert rest[0] == Utf8.Encode(cps[1])[0];
      CutBeyond(first, rest, n);
      var more := CutBetweenCodePoints(cps[1..], n - |first|);
      kept := more + 1;
      assert cps[..kept][0] == cps[0] && cps[..kept][1..] == cps[1..][..more];
      assert cps[..kept + 1][0] == cps[0] && cps[..kept + 1][1..] == cps[1..][..more + 1];
    }
  }

  lemma OneEncoded(cp: nat)
    requires Utf8.IsCodePoint(cp)
    ensures Utf8.CodePoints([cp]) && Utf8.EncodeAll([cp]) == Utf8.Encode(cp)
  {
    assert [cp][1..] == [];
  }

  // What is kept of a text: all of it if it is not too long; otherwise its first
  // max bytes, or fewer so as not to cut where a code point goes on.
  ghost predicate KeptOf(text: seq<byte>, max: nat, utf8: bool, line: Line) {
    && (line.truncated <==> |text| > max)
    && (|text| <= max ==> line.text == text)
    && (|text| > max && !utf8 ==> line.text == text[..max])
    && (|text| > max && utf8 ==>
          exists k :: 0 <= k <= max && line.text == text[..k]
            && (k > 0 ==> !(0x80 <= text[k] < 0xC0)) && forall j | k < j <= max :: 0x80 <= text[j] < 0xC0)
  }

  // Of a UTF-8 text, as many whole code points as fit.
  ghost predicate FirstCodePoints(cps: seq<nat>, max: nat, kept: seq<byte>) {
    exists k :: 0 <= k < |cps| && Utf8.CodePoints(cps[..k]) && Utf8.CodePoints(cps[..k + 1])
      && kept == Utf8.EncodeAll(cps[..k]) && |kept| <= max < |Utf8.EncodeAll(cps[..k + 1])|
  }

  // ---- what get_line hands out ----

  // One or two stretches of the ring, not copied.
  datatype View = View(start: nat, firstLength: nat, secondLength: nat, truncated: bool, data: seq<byte>)

  class Ring {
    const size: nat
    const maxLines: nat
    const maxLineLength: nat
    const dataSize: nat
    const utf8: bool
    const buf: array<byte>
    const lines: array<LineInfo>
    const lineData: array<seq<byte>>
    var writePos: nat
    var writeLine: nat
    var occupancy: nat
    var numLines: nat
    ghost var queue: seq<Line>

    // The rings hold the queue.
    ghost predicate Placed()
      reads this, buf, lines, lineData
    {
      && buf.Length == size <= MAX_SIZE && lines.Length == lineData.Length == maxLines && 0 < maxLines <= MAX_SIZE
      && lines as object != buf as object && buf as object != lineData as object && lines as object != lineData as object
      && maxLineLength <= size && numLines == |queue|
      && BytesAt(buf[..], writePos, Flat(queue)) && RecordsAt(lines[..], lineData[..], writeLine, queue, writePos, size)
    }

    ghost predicate Valid()
      reads this, buf, lines, lineData
    {
      Placed() && occupancy == Size(queue)
    }

    // The state of every ring that can be reached.
    ghost predicate Sound()
      reads this, buf, lines, lineData
    {
      Valid() || Strayed()
    }

    ghost predicate Strayed()
      reads this, buf, lines, lineData
    {
      Placed() && Size(queue) == 0 < occupancy == size && |queue| > 1
    }

    ghost function Now(): State
      reads this, buf, lines, lineData
    {
      State(queue, Strayed())
    }

    constructor (size: nat, maxLineLength: nat, maxLines: nat, dataSize: nat, utf8: bool)
      requires maxLineLength <= size <= 0x8000_0000 && 0 < maxLines <= 0x8000_0000
      ensures Valid() && queue == [] && fresh(buf) && fresh(lines) && fresh(lineData)
      ensures this.size == size && this.maxLineLength == maxLineLength && this.maxLines == maxLines
      ensures this.dataSize == dataSize && this.utf8 == utf8
    {
      this.size, this.maxLineLength, this.maxLines, this.dataSize, this.utf8 := size, maxLineLength, maxLines, dataSize, utf8;
      buf := new byte[size](_ => 0);
      lines := new LineInfo[maxLines](_ => LineInfo(false, 0));
      lineData := new seq<byte>[maxLines](_ => []);
      writePos, writeLine, occupancy, numLines := 0, 0, 0, 0;
      queue := [];
    }

    // The line as it will be kept.
    ghost function Cut(text: seq<byte>, data: seq<byte>): (line: Line)
      ensures |line.text| <= maxLineLength
    {
      if |text| <= maxLineLength then Line(text, false, data)
      else Line(text[..if utf8 then CutAt(text, maxLineLength) else maxLineLength], true, data)
    }

    method CutLength(text: seq<byte>) returns (n: nat, truncated: bool)
      ensures n <= |text| && n <= maxLineLength && Cut(text, []) == Line(text[..n], truncated, [])
    {
      n, truncated := |text|, false;
      if n > maxLineLength {
        truncated, n := true, maxLineLength;
        if utf8 {
          while n > 0 && !IsInitial(text[n])
            invariant n <= maxLineLength && CutAt(text, n) == CutAt(text, maxLineLength)
          {
            n := n - 1;
          }
        }
      }
    }

    // The length the code works out for line i, from where it and the next start.
    method LengthOf(start: nat, end: nat, alone: bool, ghost i: nat) returns (n: nat)
      requires Placed() && i < |queue| && Size(queue[i..]) <= size && Size(queue[i + 1..]) <= size
      requires start == Back(writePos, Size(queue[i..]), size) && end == Back(writePos, Size(queue[i + 1..]), size)
      ensures alone ==> start == end ==> n == occupancy
      ensures !(alone && start == end) ==> n == if Fills(queue[i], size) then 0 else |queue[i].text|
    {
      FlatFrom(queue, i);
      if start == end {
        n := if alone then occupancy else 0;
      } else if start < end {
        n := end - start;
      } else {
        n := end + size - start;
      }
    }

    // Where line i starts, and the next line or the next write; its record is
    // at place `at`.
    method Ends(at: nat, newest: bool, ghost i: nat) returns (start: nat, end: nat)
      requires Placed() && i < |queue| && (newest <==> i == |queue| - 1)
      requires at == if |queue| - i <= writeLine then writeLine - (|queue| - i) else writeLine + maxLines - (|queue| - i)
      ensures Size(queue[i..]) <= size && Size(queue[i + 1..]) <= size
      ensures start == Back(writePos, Size(queue[i..]), size) && end == Back(writePos, Size(queue[i + 1..]), size)
    {
      hide Flat, BytesAt;
      assert RecordIs(lines[..], lineData[..], writeLine, queue, i, writePos, size);
      start := lines[at].start;
      if newest {
        assert queue[i + 1..] == [];
        NoBytes();
        end := writePos;
      } else {
        assert RecordIs(lines[..], lineData[..], writeLine, queue, i + 1, writePos, size);
        end := if at + 1 == maxLines then lines[0].start else lines[at + 1].start;
      }
    }

    // One round of the eviction loop.
    method DropOne()
      requires Placed() && numLines > 0 && Size(queue) <= occupancy
      modifies this`numLines, this`occupancy, this`queue
      ensures Placed() && queue == old(queue)[1..]
      ensures var line, was := old(queue)[0], old(occupancy);
        occupancy == was - if |old(queue)| == 1 && (line.text == [] || Fills(line, size)) then was
                           else if Fills(line, size) then 0 else |line.text|
    {
      hide Flat, RecordIs, BytesAt;
      assert queue[0..] == queue;
      FlatFrom(queue, 0);
      FlatFrom(queue, 1);
      var oldest := writeLine + maxLines - numLines;
      if oldest >= maxLines {
        oldest := oldest - maxLines;
      }
      var start, end := Ends(oldest, numLines == 1, 0);
      var n := LengthOf(start, end, numLines == 1, 0);
      DropOldest(buf[..], lines[..], lineData[..], writeLine, queue, writePos);
      numLines := numLines - 1;
      occupancy := occupancy - n;
      queue := queue[1..];
    }

    // The eviction loop for a line of n bytes.  If a line that fills the ring
    // goes while others remain, it is taken for an empty one: the occupancy
    // stays, until the last line goes with all of it.
    method MakeRoom(n: nat) returns (evicted: nat)
      requires Sound() && n <= size
      modifies this`numLines, this`occupancy, this`queue
      ensures Placed() && Size(queue) + n <= size && |queue| < maxLines
      ensures evicted == Goes(old(Now()), n, size, maxLines) && queue == old(queue)[evicted..]
      ensures if Astray(old(Now()), n, size, maxLines) && n == 0 then Size(queue) == 0 < occupancy == size && queue != []
              else occupancy == Size(queue)
    {
      hide Flat, RecordIs, BytesAt, RecordsAt, Evictions, Plain;
      evicted := 0;
      ghost var start := Now();
      ghost var strayed := start.strayed;
      Bounds();
      NoRound(start, n, size, maxLines, occupancy);
      while n + occupancy > size || maxLines == numLines
        invariant Placed() && Size(queue) <= occupancy <= size && |queue| <= maxLines
        invariant Round(start, evicted, queue, strayed, n, size, maxLines, occupancy)
        decreases numLines
      {
        ghost var before, was := queue, occupancy;
        assert numLines > 0 by { NoBytes(); RoundBounds(start, evicted, queue, strayed, n, size, maxLines, occupancy); }
        DropOne();
        evicted := evicted + 1;
        NextRound(start, evicted - 1, before, strayed, n, size, maxLines, was);
        strayed := strayed || (Fills(before[0], size) && |before| > 1);
      }
      LastRound(start, evicted, queue, strayed, n, size, maxLines, occupancy);
    }

    lemma Bounds()
      requires Placed()
      ensures |queue| <= maxLines && Size(queue) <= size && 0 < maxLines && maxLineLength <= size
    {
    }

    // memcpy of the new line, in two parts if it goes round.
    method WriteText(text: seq<byte>)
      requires buf.Length == size && (writePos < size || writePos == 0 == size) && |text| <= size
      modifies buf, this`writePos
      ensures writePos == Forward(old(writePos), |text|, size)
      ensures forall j | 0 <= j < |text| :: buf[Forward(old(writePos), j, size)] == text[j]
      ensures forall k | 0 <= k < size && (forall j | 0 <= j < |text| :: k != Forward(old(writePos), j, size)) :: buf[k] == old(buf[k])
    {
      var at := writePos;
      if at + |text| <= size {
        forall j | 0 <= j < |text| { buf[at + j] := text[j]; }
        writePos := if at + |text| == size then 0 else at + |text|;
      } else {
        var piece := size - at;
        forall j | 0 <= j < piece { buf[at + j] := text[j]; }
        forall j | 0 <= j < |text| - piece { buf[j] := text[piece + j]; }
        writePos := |text| - piece;
      }
      assert forall j | 0 <= j < |text| :: buf[Forward(at, j, size)] == text[j];
      forall k | 0 <= k < size && (forall j | 0 <= j < |text| :: k != Forward(at, j, size))
        ensures buf[k] == old(buf[k])
      {
        assert Forward(at, if k >= at then k - at else k + size - at, size) == k;
      }
    }

    // The new line goes into its record and into the ring.
    method Store(line: Line)
      requires Placed() && Size(queue) + |line.text| <= size && |queue| < maxLines
      modifies this`writePos, this`writeLine, this`numLines, this`occupancy, this`queue, buf, lines, lineData
      ensures Placed() && queue == old(queue) + [line] && occupancy == old(occupancy) + |line.text|
    {
      hide Flat, RecordIs;
      var slot := writeLine;
      FlatConcat(queue, [line]);
      FlatOne(line);
      AddRecord(lines[..], lineData[..], writeLine, queue, writePos, size, line);
      ghost var was, flat, at := buf[..], Flat(queue), writePos;
      lines[slot] := LineInfo(line.truncated, writePos);
      lineData[slot] := line.data;
      writeLine := if slot + 1 == maxLines then 0 else slot + 1;
      numLines := numLines + 1;
      WriteText(line.text);
      AddBytes(was, buf[..], at, flat, line.text);
      occupancy := occupancy + |line.text|;
      queue := queue + [line];
    }

    // yc_circular_buffer_add: the line is cut as need be; the oldest lines go, as
    // few as make room unless one is mistaken; and it comes last.
    method Add(text: seq<byte>, data: Option<seq<byte>>) returns (evicted: nat)
      requires Sound()
      modifies this`writePos, this`writeLine, this`numLines, this`occupancy, this`queue, buf, lines, lineData
      ensures Sound() && queue != [] && KeptOf(text, maxLineLength, utf8, queue[|queue| - 1])
      ensures queue[|queue| - 1].data == if data.Some? then data.value else seq(dataSize, _ => 0)
      ensures forall cps | utf8 && Utf8.CodePoints(cps) && Utf8.EncodeAll(cps) == text && |text| > maxLineLength ::
        FirstCodePoints(cps, maxLineLength, queue[|queue| - 1].text)
      ensures var line := Cut(text, DataOf(data));
        && Now() == After(old(Now()), line, size, maxLines)
        && evicted == Goes(old(Now()), |line.text|, size, maxLines)
    {
      hide Flat, Evictions, Plain, RecordsAt, BytesAt, KeptOf, FirstCodePoints;
      var n, truncated := CutLength(text);
      ghost var line, start := Line(text[..n], truncated, DataOf(data)), Now();
      evicted := MakeRoom(n);
      FlatOne(line);
      FlatConcat(queue, [line]);
      Store(Line(text[..n], truncated, DataOf(data)));
      Bounds();
      assert queue[|queue| - 1] == line;
      CutIsKept(text, DataOf(data));
      forall cps | utf8 && Utf8.CodePoints(cps) && Utf8.EncodeAll(cps) == text && |text| > maxLineLength
        ensures FirstCodePoints(cps, maxLineLength, line.text)
      {
        CutIsFirst(text, DataOf(data), cps);
      }
    }

    lemma CutIsKept(text: seq<byte>, data: seq<byte>)
      ensures KeptOf(text, maxLineLength, utf8, Cut(text, data))
    {
      if |text| > maxLineLength && utf8 {
        var k := CutAt(text, maxLineLength);
        assert k > 0 ==> !(0x80 <= text[k] < 0xC0);
        assert forall j | k < j <= maxLineLength :: 0x80 <= text[j] < 0xC0;
      }
    }

    lemma CutIsFirst(text: seq<byte>, data: seq<byte>, cps: seq<nat>)
      requires utf8 && Utf8.CodePoints(cps) && Utf8.EncodeAll(cps) == text && |text| > maxLineLength
      ensures FirstCodePoints(cps, maxLineLength, Cut(text, data).text)
    {
      var kept := CutBetweenCodePoints(cps, maxLineLength);
    }

    // Without line data the record's data is cleared.
    function DataOf(data: Option<seq<byte>>): seq<byte> {
      if data.Some? then data.value else seq(dataSize, _ => 0)
    }

    lemma Uncut(text: seq<byte>)
      requires |text| <= maxLineLength && dataSize == 0
      ensures Cut(text, DataOf(None)) == Line(text, false, [])
    {
    }

    // The bytes of a view.
    ghost function TextOf(view: View): seq<byte>
      requires view.start + view.firstLength <= buf.Length && view.secondLength <= buf.Length
      reads buf
    {
      buf[view.start..view.start + view.firstLength] + buf[..view.secondLength]
    }

    // yc_circular_buffer_get_line: age 0 is the newest.  The line comes back
    // whole unless it fills the ring and is not alone; then it looks empty.
    method GetLine(age: nat) returns (view: View)
      requires Sound() && age < |queue|
      ensures view.start + view.firstLength <= buf.Length && view.secondLength <= buf.Length
      ensures var line := queue[|queue| - 1 - age];
        && view.truncated == line.truncated && view.data == line.data
        && TextOf(view) == if Fills(line, size) && |queue| > 1 then [] else line.text
    {
      hide Flat, RecordIs, BytesAt;
      ghost var i := |queue| - 1 - age;
      FlatFrom(queue, i);
      var at := writeLine + maxLines - age - 1;
      if at >= maxLines {
        at := at - maxLines;
      }
      var start, end := Ends(at, age == 0, i);
      view := View(start, 0, 0, lines[at].truncated, lineData[at]);
      assert view.truncated == queue[i].truncated && view.data == queue[i].data by {
        assert RecordIs(lines[..], lineData[..], writeLine, queue, i, writePos, size);
        RecordSays(i, at);
      }
      if start == end && numLines == 1 && occupancy > 0 {
        if start + occupancy <= size {
          view := view.(firstLength := occupancy);
        } else {
          view := view.(firstLength := size - start, secondLength := occupancy - (size - start));
        }
      } else if start <= end {
        view := view.(firstLength := end - start);
      } else if end == 0 {
        view := view.(firstLength := size - start);
      } else {
        view := view.(firstLength := size - start, secondLength := end);
      }
      if !(Fills(queue[i], size) && |queue| > 1) {
        if |queue| == 1 {
          assert queue[i..] == queue && queue[i + 1..] == [];
          NoBytes();
        }
        ViewShows(i, view);
      }
    }

    lemma RecordSays(i: nat, at: nat)
      requires Placed() && i < |queue| && at < maxLines
      requires at == Back(writeLine, |queue| - i, maxLines)
      ensures lines[at].truncated == queue[i].truncated && lineData[at] == queue[i].data
    {
      assert RecordIs(lines[..], lineData[..], writeLine, queue, i, writePos, size);
    }

    lemma ViewShows(i: nat, view: View)
      requires Placed() && i < |queue| && Size(queue[i..]) <= size && view.start == Back(writePos, Size(queue[i..]), size)
      requires view.firstLength + view.secondLength == |queue[i].text| && view.start + view.firstLength <= size
      requires view.secondLength > 0 ==> view.start + view.firstLength == size
      ensures view.secondLength <= size && TextOf(view) == queue[i].text
    {
      hide Flat, RecordIs, BytesAt;
      FlatFrom(queue, i);
      var text := queue[i].text;
      forall j | 0 <= j < |text|
        ensures TextOf(view)[j] == text[j]
      {
        BytesOfLine(buf[..], writePos, queue, i, j);
      }
    }

    // yc_circular_buffer_get_stats
    method GetStats() returns (nLines: nat, nBytes: nat)
      requires Sound()
      ensures nLines == |queue| && nBytes == if Strayed() then size else Size(queue)
    {
      nLines, nBytes := numLines, occupancy;
    }

    // What a run of additions should leave, and how many lines each should drop.
    ghost function Queued(before: seq<Line>, items: seq<Item>): seq<Line>
      requires maxLineLength <= size && maxLines > 0
    {
      if items == [] then before
      else
        var k := |items| - 1;
        var line, so := Cut(items[k].text, DataOf(items[k].data)), Queued(before, items[..k]);
        so[Evictions(so, |line.text|, size, maxLines)..] + [line]
    }

    ghost function Dropped(before: seq<Line>, items: seq<Item>): seq<nat>
      requires maxLineLength <= size && maxLines > 0
    {
      if items == [] then []
      else
        var k := |items| - 1;
        var line, so := Cut(items[k].text, DataOf(items[k].data)), Queued(before, items[..k]);
        Dropped(before, items[..k]) + [Evictions(so, |line.text|, size, maxLines)]
    }

    // Whole runs, whatever is added.
    ghost function AfterAll(before: State, items: seq<Item>): State
      requires maxLineLength <= size && maxLines > 0
    {
      if items == [] then before
      else
        var k := |items| - 1;
        After(AfterAll(before, items[..k]), Cut(items[k].text, DataOf(items[k].data)), size, maxLines)
    }

    ghost function GoesInAll(before: State, items: seq<Item>): seq<nat>
      requires maxLineLength <= size && maxLines > 0
    {
      if items == [] then []
      else
        var k := |items| - 1;
        var so, line := AfterAll(before, items[..k]), Cut(items[k].text, DataOf(items[k].data));
        GoesInAll(before, items[..k]) + [Goes(so, |line.text|, size, maxLines)]
    }

    method AddAny(items: seq<Item>) returns (evicted: seq<nat>)
      requires Sound()
      modifies this`writePos, this`writeLine, this`numLines, this`occupancy, this`queue, buf, lines, lineData
      ensures Sound() && maxLineLength <= size && maxLines > 0
      ensures Now() == AfterAll(old(Now()), items) && evicted == GoesInAll(old(Now()), items)
    {
      hide BytesAt, RecordsAt, After, Goes, Cut, Flat;
      evicted := [];
      Bounds();
      for k := 0 to |items|
        invariant Sound() && maxLineLength <= size && maxLines > 0
        invariant Now() == AfterAll(old(Now()), items[..k]) && evicted == GoesInAll(old(Now()), items[..k])
      {
        assert items[..k + 1][..k] == items[..k];
        var n := Add(items[k].text, items[k].data);
        evicted := evicted + [n];
      }
      assert items[..|items|] == items;
    }

    // Whole runs that go right: when no line can fill the ring, or none is empty once cut,
    // every addition does what the queue should do.
    method AddAll(items: seq<Item>) returns (evicted: seq<nat>)
      requires Valid()
      requires (maxLineLength < size && NoneFills(queue))
            || (NoneEmpty(queue) && forall i | 0 <= i < |items| :: Cut(items[i].text, DataOf(items[i].data)).text != [])
      modifies this`writePos, this`writeLine, this`numLines, this`occupancy, this`queue, buf, lines, lineData
      ensures Valid() && queue == Queued(old(queue), items) && evicted == Dropped(old(queue), items)
      ensures !Ambiguous(queue, size)
    {
      hide Placed, Queued, Dropped, AfterAll, GoesInAll, Ambiguous, Cut;
      Bounds();
      ghost var before := queue;
      evicted := AddAny(items);
      RunsRight(before, items);
      Bounds();
      UnmistakableIsPlain(queue, 0, size, maxLines);
    }

    ghost predicate NoneFills(queue: seq<Line>) {
      forall i | 0 <= i < |queue| :: !Fills(queue[i], size)
    }

    ghost predicate NoneEmpty(queue: seq<Line>) {
      forall i | 0 <= i < |queue| :: queue[i].text != []
    }

    // On the queue: every step goes right.
    lemma {:induction false} RunsRight(before: seq<Line>, items: seq<Item>)
      requires maxLineLength <= size && 0 < maxLines && Size(before) <= size
      requires (maxLineLength < size && NoneFills(before))
            || (NoneEmpty(before) && forall i | 0 <= i < |items| :: Cut(items[i].text, DataOf(items[i].data)).text != [])
      ensures AfterAll(State(before, false), items) == State(Queued(before, items), false)
      ensures GoesInAll(State(before, false), items) == Dropped(before, items)
      ensures Size(Queued(before, items)) <= size && Unmistakable(Queued(before, items), size)
      ensures if maxLineLength < size && NoneFills(before) then NoneFills(Queued(before, items)) else NoneEmpty(Queued(before, items))
      decreases |items|
    {
      hide Cut, Flat, Evictions, Goes, After;
      if items != [] {
        var k := |items| - 1;
        RunsRight(before, items[..k]);
        var so, line := Queued(before, items[..k]), Cut(items[k].text, DataOf(items[k].data));
        GoesRight(so, line, size, maxLines);
        FewestEvictions(so, |line.text|, size, maxLines);
        var e := Evictions(so, |line.text|, size, maxLines);
        FlatConcat(so[e..], [line]);
        FlatOne(line);
        assert Queued(before, items) == so[e..] + [line];
        if maxLineLength < size && NoneFills(before) {
          assert NoneFills(so[e..] + [line]);
        } else {
          assert NoneEmpty(so[e..] + [line]);
        }
      } else {
        assert Queued(before, items) == before;
      }
    }
  }

  lemma TwoLines(a: Line, b: Line)
    requires |a.text| == 1 && b.text == []
    ensures Evictions([], 1, 1, 3) == 0 == Evictions([a], 0, 1, 3) && Plain([], 1, 1, 3) && Plain([a], 0, 1, 3)
    ensures Size([a, b]) == 1 && Evictions([a, b], 1, 1, 3) == 1
    ensures !Plain([a, b], 1, 1, 3) && Ambiguous([a, b], 1)
  {
    assert [a, b][1..] == [b] && [a][1..] == [] && [b][1..] == [];
    FlatOne(a);
    FlatOne(b);
    assert [a, b] == [a] + [b];
    FlatConcat([a], [b]);
    assert Evictions([b], 1, 1, 3) == 0;
    assert Fills([a, b][0], 1);
  }

  lemma ThreeSteps(a: Line, b: Line, c: Line)
    requires |a.text| == 1 == |c.text| && b.text == []
    ensures After(State([], false), a, 1, 3) == State([a], false)
    ensures After(State([a], false), b, 1, 3) == State([a, b], false)
    ensures Goes(State([a, b], false), 1, 1, 3) == 2 && After(State([a, b], false), c, 1, 3) == State([c], false)
  {
    hide Flat, Evictions, Plain;
    TwoLines(a, b);
    assert [] + [a] == [a] && [a][0..] == [a] && [a, b][2..] == [] && [] + [c] == [c];
  }

  method ByteAndNothing(x: byte) returns (ring: Ring)
    ensures fresh(ring) && fresh(ring.buf) && fresh(ring.lines) && fresh(ring.lineData)
    ensures ring.Sound() && ring.size == 1 == ring.maxLineLength && ring.maxLines == 3 && ring.dataSize == 0
    ensures ring.Now() == State([Line([x], false, []), Line([], false, [])], false)
  {
    ring := new Ring(1, 1, 3, 0, false);
    ghost var a, b := Line([x], false, []), Line([], false, []);
    ThreeSteps(a, b, a);
    hide Flat, Evictions, Plain, Ring.Placed, Ring.Cut, After, Goes, Astray;
    ring.Uncut([x]);
    ring.Uncut([]);
    assert ring.Now() == State([], false);
    var none := ring.Add([x], None);
    assert ring.Now() == State([a], false);
    none := ring.Add([], None);
  }

  // It does happen: in a ring of one byte, a byte and an empty line after it
  // look like two empty lines, and the next byte drops them both, where one
  // would have been enough.
  method FillingLineIsMistaken(x: byte, y: byte) returns (ring: Ring, view: View, evicted: nat)
    ensures view.firstLength == view.secondLength == 0 && evicted == 2
    ensures fresh(ring) && ring.Valid() && ring.queue == [Line([y], false, [])]
    ensures var was := [Line([x], false, []), Line([], false, [])];
      !Plain(was, 1, 1, 3) && Ambiguous(was, 1) && Evictions(was, 1, 1, 3) == 1
  {
    ring := ByteAndNothing(x);
    ghost var a, b := Line([x], false, []), Line([], false, []);
    TwoLines(a, b);
    ThreeSteps(a, b, Line([y], false, []));
    hide Flat, Evictions, Plain, Ring.Placed, Ring.Cut, After, Goes, Astray;
    ring.Uncut([y]);
    view := ring.GetLine(1);
    evicted := ring.Add([y], None);
    assert ring.Now() == State([Line([y], false, [])], false);
  }

  // A line to be added.
  datatype Item = Item(text: seq<byte>, data: Option<seq<byte>>)
}
