// The diffed frame buffer of src/yc-term.c.
module Terminal {
  import opened Basics
  import opened Utf8
  import opened TerminalDisplay

  const DEFAULT_WIDTH := 80
  const DEFAULT_HEIGHT := 24

  // ---- widths ----

  datatype CpRange = CpRange(first: nat, last: nat)

  // The form of the width tables: sorted, and no two overlap.
  predicate Sorted(ranges: seq<CpRange>) {
    && (forall i | 0 <= i < |ranges| :: ranges[i].first <= ranges[i].last)
    && (forall i, j | 0 <= i < j < |ranges| :: ranges[i].last < ranges[j].first)
  }

  ghost predicate InSome(cp: nat, ranges: seq<CpRange>) {
    exists i :: 0 <= i < |ranges| && ranges[i].first <= cp <= ranges[i].last
  }

  // in_ranges: binary search.
  method InRanges(cp: nat, ranges: seq<CpRange>) returns (found: bool)
    requires Sorted(ranges)
    ensures found <==> InSome(cp, ranges)
  {
    var lo, hi := 0, |ranges|;
    while lo < hi
      invariant 0 <= lo <= hi <= |ranges|
      invariant forall i | 0 <= i < lo :: ranges[i].last < cp
      invariant forall i | hi <= i < |ranges| :: cp < ranges[i].first
    {
      var mid := lo + (hi - lo) / 2;
      if cp < ranges[mid].first {
        hi := mid;
      } else if cp > ranges[mid].last {
        lo := mid + 1;
      } else {
        return true;
      }
    }
    found := false;
  }

  // ---- what a row is made of ----

  datatype Item = Glyph(cp: nat) | Question | Blank | Attr(sgr: seq<byte>)

  ghost function Decoded(text: seq<byte>): (r: Option<nat>)
    ensures r.Some? ==> Begins(text, r.value)
    ensures r.None? ==> forall c: nat :: !Begins(text, c)
  {
    if c: nat :| Begins(text, c) then Some(c) else None
  }

  // A child's text, code point by code point.  What is ill-formed, a control
  // character or DEL is shown as a question mark.
  ghost function Items(text: seq<byte>): seq<Item>
    decreases |text|
  {
    if text == [] then []
    else
      match Decoded(text)
      case None => [Question] + Items(text[1..])
      case Some(cp) => [if cp < 0x20 || cp == 0x7F then Question else Glyph(cp)] + Items(text[|Encode(cp)|..])
  }

  predicate Sendable(item: Item) {
    item.Glyph? ==> IsCodePoint(item.cp) && item.cp >= 0x20 && item.cp != 0x7F
  }

  function BytesOf(item: Item): seq<byte>
    requires Sendable(item)
  {
    match item
    case Glyph(cp) => Encode(cp)
    case Question => [63]
    case Blank => [32]
    case Attr(sgr) => sgr
  }

  predicate AllSendable(items: seq<Item>) {
    forall i | 0 <= i < |items| :: Sendable(items[i])
  }

  // The bytes of a row.
  ghost function Render(items: seq<Item>): seq<byte>
    requires AllSendable(items)
  {
    if items == [] then [] else Render(items[..|items| - 1]) + BytesOf(items[|items| - 1])
  }

  lemma {:induction false} ItemsSendable(text: seq<byte>)
    ensures AllSendable(Items(text)) && forall i | 0 <= i < |Items(text)| :: !Items(text)[i].Attr?
    decreases |text|
  {
    if text != [] {
      ItemsSendable(if Decoded(text).None? then text[1..] else text[|Encode(Decoded(text).value)|..]);
    }
  }

  // Nothing but attributes carries a C0 control or DEL to the terminal.
  lemma NoControlBytes(item: Item)
    requires Sendable(item) && !item.Attr?
    ensures forall i | 0 <= i < |BytesOf(item)| :: BytesOf(item)[i] >= 0x20 && BytesOf(item)[i] != 0x7F
  {
  }

  // A code point of a text is drawn as it is, exactly if it is neither of
  // these.  So a C1 control is drawn: in UTF-8, as two bytes.
  lemma WhatPasses(cp: nat)
    requires IsCodePoint(cp)
    ensures Items(Encode(cp)) == [Glyph(cp)] <==> !(cp < 0x20 || cp == 0x7F)
    ensures 0x80 <= cp < 0xA0 ==> Items([0xC2, cp]) == [Glyph(cp)]
  {
    var text := Encode(cp);
    DecodedOwn(cp);
    hide Encode, Decoded;
    assert text[|text|..] == [];
    assert Items(text) == [if cp < 0x20 || cp == 0x7F then Question else Glyph(cp)] + Items([]);
    assert Items([]) == [];
    assert Items(text)[0] == if cp < 0x20 || cp == 0x7F then Question else Glyph(cp);
    TwoBytes(cp);
  }

  lemma DecodedOwn(cp: nat)
    requires IsCodePoint(cp)
    ensures Encode(cp) != [] && Decoded(Encode(cp)) == Some(cp)
  {
    assert Begins(Encode(cp), cp);
    BeginsOnce(Encode(cp), cp, Decoded(Encode(cp)).value);
  }

  lemma TwoBytes(cp: nat)
    ensures 0x80 <= cp < 0xA0 ==> Encode(cp) == [0xC2, cp]
  {
  }

  // ---- items as the terminal shows them ----

  // Every attribute is one SGR sequence.
  predicate Styled(items: seq<Item>) {
    forall i | 0 <= i < |items| && items[i].Attr? :: items[i].sgr != [] && SgrLength(items[i].sgr) == |items[i].sgr|
  }

  function Marks(pen: Pen, bytes: seq<byte>): seq<Mark> {
    seq(|bytes|, i requires 0 <= i < |bytes| => Mark(pen, bytes[i]))
  }

  // Each item with the attributes set before it.
  ghost function Styles(pen: Pen, items: seq<Item>): Look
    requires AllSendable(items)
    decreases |items|
  {
    if items == [] then Look([], pen)
    else if items[0].Attr? then Styles(NextPen(pen, items[0].sgr), items[1..])
    else
      var rest := Styles(pen, items[1..]);
      Look(Marks(pen, BytesOf(items[0])) + rest.marks, rest.pen)
  }

  lemma {:induction false} RenderFirst(items: seq<Item>)
    requires AllSendable(items) && items != []
    ensures Render(items) == BytesOf(items[0]) + Render(items[1..])
  {
    hide Sendable, BytesOf, Render;
    var n := |items| - 1;
    RenderLast(items);
    if n == 0 {
      assert items[..0] == [] && items[1..] == [];
      NothingWritten([]);
    } else {
      var most, rest := items[..n], items[1..];
      RenderFirst(most);
      assert most[1..] == rest[..n - 1] && rest[n - 1] == items[n];
      RenderLast(rest);
      Reassociate(BytesOf(items[0]), Render(most[1..]), BytesOf(items[n]));
    }
  }

  lemma RenderLast(items: seq<Item>)
    requires AllSendable(items) && items != []
    ensures var n := |items| - 1; Render(items) == Render(items[..n]) + BytesOf(items[n])
  {
  }

  lemma Reassociate(a: seq<byte>, b: seq<byte>, c: seq<byte>)
    ensures (a + b) + c == a + (b + c)
  {
  }

  lemma {:induction false} ParamsFirst(a: seq<byte>, b: seq<byte>)
    requires Params(a) < |a|
    ensures Params(a + b) == Params(a)
  {
    if IsParam(a[0]) {
      assert (a + b)[1..] == a[1..] + b;
      ParamsFirst(a[1..], b);
    }
  }

  lemma AttrFirst(pen: Pen, sgr: seq<byte>, b: seq<byte>)
    requires sgr != [] && SgrLength(sgr) == |sgr|
    ensures Write(pen, sgr + b) == Write(NextPen(pen, sgr), b)
  {
    assert (sgr + b)[2..] == sgr[2..] + b;
    ParamsFirst(sgr[2..], b);
    assert SgrLength(sgr + b) == |sgr|;
    assert (sgr + b)[..|sgr|] == sgr && (sgr + b)[|sgr|..] == b;
  }

  lemma {:induction false} TextFirst(pen: Pen, a: seq<byte>, b: seq<byte>)
    requires ESC !in a
    ensures Write(pen, a + b) == var rest := Write(pen, b); Look(Marks(pen, a) + rest.marks, rest.pen)
    decreases |a|
  {
    hide Write, Marks;
    MarksOne(pen, a);
    var rest := Write(pen, b).marks;
    if a == [] {
      assert a + b == b && [] + rest == rest;
    } else {
      assert (a + b)[1..] == a[1..] + b && (a + b)[0] == a[0];
      TextFirst(pen, a[1..], b);
      OneMark(pen, a + b);
      JoinMarks([Mark(pen, a[0])], Marks(pen, a[1..]), rest);
    }
  }

  lemma JoinMarks(a: seq<Mark>, b: seq<Mark>, c: seq<Mark>)
    ensures a + (b + c) == a + b + c
  {
  }

  lemma OneMark(pen: Pen, s: seq<byte>)
    requires s != [] && s[0] != ESC
    ensures var rest := Write(pen, s[1..]); Write(pen, s) == Look([Mark(pen, s[0])] + rest.marks, rest.pen)
  {
  }

  lemma MarksOne(pen: Pen, a: seq<byte>)
    ensures Marks(pen, a) == if a == [] then [] else [Mark(pen, a[0])] + Marks(pen, a[1..])
  {
  }

  // The terminal shows each item that was drawn with its attributes.
  lemma {:induction false} ShownAsDrawn(pen: Pen, items: seq<Item>)
    requires AllSendable(items) && Styled(items)
    ensures Write(pen, Render(items)) == Styles(pen, items)
    decreases |items|
  {
    hide Write, Render, Sendable, BytesOf, NextPen, SgrLength;
    if items == [] {
      NothingWritten(pen);
    } else {
      var item, rest := items[0], items[1..];
      RenderFirst(items);
      if item.Attr? {
        BytesOfAttr(item);
        AttrFirst(pen, item.sgr, Render(rest));
        ShownAsDrawn(NextPen(pen, item.sgr), rest);
      } else {
        NoControlBytes(item);
        TextFirst(pen, BytesOf(item), Render(rest));
        ShownAsDrawn(pen, rest);
      }
    }
  }

  lemma BytesOfAttr(item: Item)
    requires item.Attr? && Sendable(item)
    ensures BytesOf(item) == item.sgr
  {
  }

  lemma NothingWritten(pen: Pen)
    ensures Render([]) == [] && Write(pen, []) == Look([], pen)
  {
  }

  // ---- a text as it is sent and shown ----

  // A printable code point, or a byte that is none: a control, DEL, or part of
  // no encoding.
  datatype Sent = Good(cp: nat) | Bad(b: byte)

  predicate GoodSent(x: Sent, after: seq<byte>) {
    match x
    case Good(cp) => cp < 0x140000 && !(0xD800 <= cp <= 0xDFFF) && cp >= 0x20 && cp != 0x7F
    case Bad(b) =>
      b < 0x20 || b == 0x7F || 0x80 <= b < 0xC2 || b >= 0xF5
      || (b >= 0xC2 && (after == [] || !(0x80 <= after[0] < 0xC0)))
  }

  function BytesSent(x: Sent): seq<byte>
    requires x.Good? ==> x.cp < 0x140000
  {
    if x.Good? then Encode(x.cp) else [x.b]
  }

  predicate Encodable(xs: seq<Sent>) {
    forall i | 0 <= i < |xs| :: xs[i].Good? ==> xs[i].cp < 0x140000
  }

  function TextSent(xs: seq<Sent>): seq<byte>
    requires Encodable(xs)
  {
    if xs == [] then [] else BytesSent(xs[0]) + TextSent(xs[1..])
  }

  predicate GoodText(xs: seq<Sent>)
    requires Encodable(xs)
  {
    xs == [] || (GoodSent(xs[0], TextSent(xs[1..])) && GoodText(xs[1..]))
  }

  // What is shown for it: a question mark for each bad byte.
  function BytesShown(xs: seq<Sent>): seq<byte>
    requires Encodable(xs)
  {
    if xs == [] then [] else (if xs[0].Good? then Encode(xs[0].cp) else [63]) + BytesShown(xs[1..])
  }

  // A code point in the table of those without width takes no column, another
  // one in the table of wide ones two, and anything else one.
  ghost function ColumnsShown(xs: seq<Sent>, zeroWidth: seq<CpRange>, wide: seq<CpRange>): nat {
    if xs == [] then 0
    else
      (if xs[0].Bad? then 1
       else if exists i :: 0 <= i < |zeroWidth| && zeroWidth[i].first <= xs[0].cp <= zeroWidth[i].last then 0
       else if exists i :: 0 <= i < |wide| && wide[i].first <= xs[0].cp <= wide[i].last then 2
       else 1)
      + ColumnsShown(xs[1..], zeroWidth, wide)
  }

  // The row after a text: the first k of it, with a column left before the last
  // of them; and no room for the next.
  ghost predicate PutRight(before: Row, after: Row, xs: seq<Sent>, width: nat, zeroWidth: seq<CpRange>, wide: seq<CpRange>)
    requires Encodable(xs)
  {
    exists k :: 0 <= k <= |xs| && PutFirst(before, after, xs, k, width, zeroWidth, wide)
  }

  ghost predicate PutFirst(before: Row, after: Row, xs: seq<Sent>, k: nat, width: nat, zeroWidth: seq<CpRange>, wide: seq<CpRange>)
    requires Encodable(xs) && k <= |xs|
  {
    && after.bytes == before.bytes + BytesShown(xs[..k])
    && after.cols == before.cols + ColumnsShown(xs[..k], zeroWidth, wide)
    && (k > 0 ==> after.cols <= width && before.cols + ColumnsShown(xs[..k - 1], zeroWidth, wide) < width)
    && (k < |xs| ==> after.cols >= width || before.cols + ColumnsShown(xs[..k + 1], zeroWidth, wide) > width)
  }

  datatype Row = Row(bytes: seq<byte>, cols: nat)

  const EMPTY := Row([], 0)

  // ---- texts of one kind ----

  ghost predicate Among(cp: nat, ranges: seq<CpRange>) {
    exists i :: 0 <= i < |ranges| && ranges[i].first <= cp <= ranges[i].last
  }

  predicate AllGood(xs: seq<Sent>) {
    forall i | 0 <= i < |xs| :: xs[i].Good? && xs[i].cp < 0x140000
  }

  lemma {:induction false} ShownAsSent(xs: seq<Sent>)
    requires AllGood(xs)
    ensures BytesShown(xs) == TextSent(xs)
  {
    if xs != [] {
      ShownAsSent(xs[1..]);
    }
  }

  // Every one of them takes n columns.
  lemma {:induction false} SameColumns(xs: seq<Sent>, n: nat, zeroWidth: seq<CpRange>, wide: seq<CpRange>)
    requires AllGood(xs)
    requires forall i | 0 <= i < |xs| ::
      n == if Among(xs[i].cp, zeroWidth) then 0 else if Among(xs[i].cp, wide) then 2 else 1
    ensures ColumnsShown(xs, zeroWidth, wide) == n * |xs|
  {
    if xs != [] {
      SameColumns(xs[1..], n, zeroWidth, wide);
    }
  }

  // A text of printable code points in neither table adds a column for each,
  // and is drawn whole if there are as many.
  lemma Ordinary(before: Row, after: Row, xs: seq<Sent>, width: nat, zeroWidth: seq<CpRange>, wide: seq<CpRange>)
    requires AllGood(xs) && PutRight(before, after, xs, width, zeroWidth, wide) && before.cols + |xs| <= width
    requires forall i | 0 <= i < |xs| :: !Among(xs[i].cp, zeroWidth) && !Among(xs[i].cp, wide)
    ensures after.bytes == before.bytes + TextSent(xs) && after.cols == before.cols + |xs|
  {
    hide TextSent;
    var k := PutSame(before, after, xs, 1, width, zeroWidth, wide);
  }

  // Wide ones add two columns each, and none is drawn into a single one.
  lemma Wide(before: Row, after: Row, xs: seq<Sent>, width: nat, zeroWidth: seq<CpRange>, wide: seq<CpRange>)
    requires AllGood(xs) && PutRight(before, after, xs, width, zeroWidth, wide) && before.cols <= width
    requires forall i | 0 <= i < |xs| :: !Among(xs[i].cp, zeroWidth) && Among(xs[i].cp, wide)
    ensures var n := if 2 * |xs| <= width - before.cols then |xs| else (width - before.cols) / 2;
      after.bytes == before.bytes + TextSent(xs[..n]) && after.cols == before.cols + 2 * n
  {
    hide TextSent;
    var k := PutSame(before, after, xs, 2, width, zeroWidth, wide);
  }

  // Those without width add none, and all are drawn if a column is left.
  lemma Weightless(before: Row, after: Row, xs: seq<Sent>, width: nat, zeroWidth: seq<CpRange>, wide: seq<CpRange>)
    requires AllGood(xs) && PutRight(before, after, xs, width, zeroWidth, wide)
    requires forall i | 0 <= i < |xs| :: Among(xs[i].cp, zeroWidth)
    ensures after.cols == before.cols
    ensures after.bytes == if before.cols < width then before.bytes + TextSent(xs) else before.bytes
  {
    hide TextSent;
    var k := PutSame(before, after, xs, 0, width, zeroWidth, wide);
  }

  lemma PutSame(before: Row, after: Row, xs: seq<Sent>, n: nat, width: nat, zeroWidth: seq<CpRange>, wide: seq<CpRange>)
      returns (k: nat)
    requires AllGood(xs) && PutRight(before, after, xs, width, zeroWidth, wide)
    requires forall i | 0 <= i < |xs| ::
      n == if Among(xs[i].cp, zeroWidth) then 0 else if Among(xs[i].cp, wide) then 2 else 1
    ensures k <= |xs| && after.bytes == before.bytes + TextSent(xs[..k]) && after.cols == before.cols + n * k
    ensures k > 0 ==> after.cols <= width && before.cols + n * (k - 1) < width
    ensures k < |xs| ==> after.cols >= width || before.cols + n * (k + 1) > width
    ensures TextSent(xs[..0]) == [] && xs[..|xs|] == xs
  {
    hide BytesShown, ColumnsShown, TextSent, Among;
    k :| k <= |xs| && PutFirst(before, after, xs, k, width, zeroWidth, wide);
    SamePrefix(xs, k, n, zeroWidth, wide);
    SamePrefix(xs, if k > 0 then k - 1 else 0, n, zeroWidth, wide);
    SamePrefix(xs, if k < |xs| then k + 1 else k, n, zeroWidth, wide);
    assert xs[..0] == [];
    NothingSent();
  }

  lemma NothingSent()
    ensures TextSent([]) == []
  {
  }

  lemma SamePrefix(xs: seq<Sent>, k: nat, n: nat, zeroWidth: seq<CpRange>, wide: seq<CpRange>)
    requires AllGood(xs) && k <= |xs|
    requires forall i | 0 <= i < |xs| ::
      n == if Among(xs[i].cp, zeroWidth) then 0 else if Among(xs[i].cp, wide) then 2 else 1
    ensures AllGood(xs[..k]) && BytesShown(xs[..k]) == TextSent(xs[..k])
    ensures ColumnsShown(xs[..k], zeroWidth, wide) == n * k
  {
    hide ColumnsShown, BytesShown, TextSent, Among;
    ShownAsSent(xs[..k]);
    SameColumns(xs[..k], n, zeroWidth, wide);
  }

  ghost function Texts(rows: seq<Row>): (texts: seq<seq<byte>>)
    ensures |texts| == |rows|
  {
    seq(|rows|, r requires 0 <= r < |rows| => rows[r].bytes)
  }

  // ---- how rows are drawn ----

  datatype Call =
    | SetSize(width: nat, height: nat)
    | BeginFrame
    | RowBegin(row: nat)
    | RowAttr(sgr: seq<byte>)
    | RowPuts(text: seq<byte>)
    | RowPad(toCol: nat)
    | RowEnd
    | EndFrame
  {
    predicate Draws() {
      RowBegin? || RowAttr? || RowPuts? || RowPad? || RowEnd?
    }
  }

  // A row of the frame: nothing yet, something, or ended since.
  datatype Standing = Untouched | Open | Ended

  datatype Progress = Progress(row: nat, rows: seq<Standing>) {
    function Set(s: Standing): Progress {
      if row < |rows| then this.(rows := rows[row := s]) else this
    }
  }

  function Follow(p: Progress, call: Call): (q: Progress)
    ensures |q.rows| == |p.rows|
  {
    match call
    case RowBegin(row) => Progress(row, p.rows).Set(Untouched)
    case RowAttr(sgr) => if sgr == [] then p else p.Set(if sgr == RESET then Ended else Open)
    case RowPuts(text) => if text == [] then p else p.Set(Open)
    case RowPad(_) => p.Set(Open)
    case RowEnd => p.Set(Ended)
    case _ => p
  }

  function FollowAll(p: Progress, calls: seq<Call>): (q: Progress)
    ensures |q.rows| == |p.rows|
  {
    if calls == [] then p else Follow(FollowAll(p, calls[..|calls| - 1]), calls[|calls| - 1])
  }

  // What draws one row: its beginning, attributes, texts and padding, its end.
  predicate DrawsWithin(calls: seq<Call>) {
    forall i | 0 <= i < |calls| :: calls[i].RowAttr? || calls[i].RowPuts? || calls[i].RowPad?
  }

  function RowCalls(row: nat, calls: seq<Call>): seq<Call> {
    [Call.RowBegin(row)] + calls + [Call.RowEnd]
  }

  // A frame of such rows.
  datatype RowDrawn = RowDrawn(row: nat, calls: seq<Call>)

  function FrameCalls(rows: seq<RowDrawn>): seq<Call> {
    if rows == [] then []
    else FrameCalls(rows[..|rows| - 1]) + RowCalls(rows[|rows| - 1].row, rows[|rows| - 1].calls)
  }

  lemma {:induction false} FollowMore(p: Progress, a: seq<Call>, b: seq<Call>)
    ensures FollowAll(p, a + b) == FollowAll(FollowAll(p, a), b)
    decreases |b|
  {
    if b == [] {
      assert a + b == a;
    } else {
      var k := |b| - 1;
      assert (a + b)[..|a| + k] == a + b[..k] && (a + b)[|a| + k] == b[k];
      FollowMore(p, a, b[..k]);
    }
  }

  lemma {:induction false} StaysOnRow(p: Progress, calls: seq<Call>)
    requires DrawsWithin(calls)
    ensures var q := FollowAll(p, calls); q.row == p.row && forall r | 0 <= r < |p.rows| && r != p.row :: q.rows[r] == p.rows[r]
  {
    if calls != [] {
      StaysOnRow(p, calls[..|calls| - 1]);
    }
  }

  // A row that is drawn so ends closed, and the others stay as they are.
  lemma RowIsEnded(p: Progress, row: nat, calls: seq<Call>)
    requires DrawsWithin(calls)
    ensures FollowAll(p, RowCalls(row, calls)) == Progress(row, if row < |p.rows| then p.rows[row := Ended] else p.rows)
  {
    var begun := Progress(row, p.rows).Set(Untouched);
    var first, last := [Call.RowBegin(row)], [Call.RowEnd];
    assert first[..0] == [] && last[..0] == [];
    assert FollowAll(p, []) == p && FollowAll(p, first) == begun;
    FollowMore(p, first, calls);
    FollowMore(p, first + calls, last);
    StaysOnRow(begun, calls);
    var drawn := FollowAll(begun, calls);
    assert FollowAll(drawn, last) == Follow(FollowAll(drawn, []), Call.RowEnd) == Progress(row, drawn.rows).Set(Ended);
    if row < |p.rows| {
      assert drawn.rows[row := Ended] == p.rows[row := Ended];
    } else {
      assert drawn.rows == p.rows;
    }
  }

  // Is row r among them?
  ghost predicate Includes(rows: seq<RowDrawn>, r: nat) {
    exists i :: 0 <= i < |rows| && rows[i].row == r
  }

  lemma IncludesLast(rows: seq<RowDrawn>, r: nat)
    requires rows != []
    ensures Includes(rows, r) <==> rows[|rows| - 1].row == r || Includes(rows[..|rows| - 1], r)
  {
    var k := |rows| - 1;
    if Includes(rows[..k], r) {
      var i :| 0 <= i < k && rows[..k][i].row == r;
      assert rows[i].row == r;
    }
    if Includes(rows, r) && rows[k].row != r {
      var i :| 0 <= i < |rows| && rows[i].row == r;
      assert rows[..k][i].row == r;
    }
  }

  // A frame drawn row by row, whatever the rows, leaves none open.
  lemma {:induction false} FrameIsTidy(p: Progress, rows: seq<RowDrawn>)
    requires Tidy(p.rows) && forall i | 0 <= i < |rows| :: DrawsWithin(rows[i].calls)
    ensures var q := FollowAll(p, FrameCalls(rows)).rows;
      Tidy(q) && forall r | 0 <= r < |q| :: q[r] == if Includes(rows, r) then Ended else p.rows[r]
  {
    hide FollowAll, RowCalls, DrawsWithin, Includes;
    if rows == [] {
      NoRows(p);
    } else {
      var k := |rows| - 1;
      var most, last := rows[..k], rows[k];
      assert forall i | 0 <= i < k :: most[i] == rows[i];
      FrameIsTidy(p, most);
      FollowMore(p, FrameCalls(most), RowCalls(last.row, last.calls));
      RowIsEnded(FollowAll(p, FrameCalls(most)), last.row, last.calls);
      forall r | 0 <= r < |p.rows|
        ensures Includes(rows, r) <==> r == last.row || Includes(most, r)
      {
        IncludesLast(rows, r);
      }
    }
  }

  lemma NoRows(p: Progress)
    ensures FollowAll(p, FrameCalls([])) == p && forall r: nat :: !Includes([], r)
  {
  }

  // No row is left open.
  predicate Tidy(rows: seq<Standing>) {
    forall r | 0 <= r < |rows| :: !rows[r].Open?
  }

  predicate Stands(bytes: seq<byte>, s: Standing) {
    match s
    case Untouched => bytes == []
    case Open => true
    case Ended => |bytes| >= |RESET| && bytes[|bytes| - |RESET|..] == RESET
  }

  lemma TidyIsClosed(bytes: seq<byte>, s: Standing)
    requires Stands(bytes, s) && !s.Open?
    ensures Closed(bytes) && (bytes == [] <==> s.Untouched?)
  {
    if s.Ended? {
      var a := bytes[..|bytes| - |RESET|];
      assert bytes == a + RESET;
      ResetCloses([], a);
    }
  }

  class Term {
    const zeroWidth: seq<CpRange>
    const wide: seq<CpRange>
    var width: nat
    var height: nat
    var back: seq<Row>
    var front: seq<Row>
    var currentRow: nat
    var inFrame: bool
    var rowsWritten: nat
    var out: seq<Paint>
    ghost var drawn: seq<seq<Item>>
    ghost var standing: seq<Standing>
    ghost var fitted: bool
    ghost var screen: seq<Cell>
    ghost var pen: Pen               // what is in force in the terminal ...
    ghost var pens: seq<Pen>         // ... and was when each row was written
    ghost var tidy: bool             // no frame has ended with a row left open

    ghost function Columns(item: Item): nat
    {
      match item
      case Glyph(cp) => if cp == 0 || InSome(cp, zeroWidth) then 0 else if InSome(cp, wide) then 2 else 1
      case Question => 1
      case Blank => 1
      case Attr(_) => 0
    }

    ghost function Width(items: seq<Item>): nat {
      if items == [] then 0 else Columns(items[0]) + Width(items[1..])
    }

    // As many items as fit after `cols` columns.  None follows a full row, not
    // even one that takes no room.
    ghost function Fit(items: seq<Item>, cols: nat, width: nat): seq<Item>
      decreases |items|
    {
      if items == [] || cols >= width || cols + Columns(items[0]) > width then []
      else [items[0]] + Fit(items[1..], cols + Columns(items[0]), width)
    }

    ghost predicate RowIs(row: Row, items: seq<Item>) {
      AllSendable(items) && row.bytes == Render(items) && row.cols == Width(items)
    }

    ghost predicate Valid()
      reads this
    {
      Filled() && |front| == |back| && Seen()
    }

    // Every row holds what was drawn, counted right, and stands as it should.
    ghost predicate Filled()
      reads this`width, this`height, this`back, this`drawn, this`standing, this`fitted
    {
      && Sorted(zeroWidth) && Sorted(wide)
      && 0 < width && 0 < height <= |back| == |drawn| == |standing|
      && (forall r | 0 <= r < |back| :: RowIs(back[r], drawn[r]) && Stands(back[r].bytes, standing[r]))
      && (fitted ==> forall r | 0 <= r < height :: back[r].cols <= width)
    }

    // The front rows are what the terminal shows, unless it has been resized
    // since they were sent.
    ghost predicate Seen()
      reads this`front, this`screen, this`pen, this`pens, this`tidy
    {
      && |front| == |screen| == |pens|
      && (forall r | 0 <= r < |front| ::
            screen[r] == Shows(Write(pens[r], front[r].bytes)) || (screen[r] == Stale && front[r].bytes == []))
      && (tidy ==> Plain())
    }

    ghost predicate Plain()
      reads this`pen, this`pens
    {
      pen == [] && forall r | 0 <= r < |pens| :: pens[r] == []
    }

    ghost function Shown(): Display
      reads this`screen, this`pen
    {
      Display(screen, pen)
    }

    ghost function Frame(): Progress
      reads this`currentRow, this`standing, this`height
      requires height <= |standing|
    {
      Progress(currentRow, standing[..height])
    }

    // The alternate screen has just been cleared.
    constructor (zeroWidth: seq<CpRange>, wide: seq<CpRange>)
      requires Sorted(zeroWidth) && Sorted(wide)
      ensures Valid() && width == 80 && height == 24
      ensures forall r | 0 <= r < height :: screen[r] == Shows(Look([], []))
      ensures tidy
    {
      this.zeroWidth, this.wide := zeroWidth, wide;
      width, height := DEFAULT_WIDTH, DEFAULT_HEIGHT;
      back, front := seq(DEFAULT_HEIGHT, _ => EMPTY), seq(DEFAULT_HEIGHT, _ => EMPTY);
      currentRow, inFrame, rowsWritten, out := 0, false, 0, [];
      drawn, standing := seq(DEFAULT_HEIGHT, _ => []), seq(DEFAULT_HEIGHT, _ => Untouched);
      screen, pens := seq(DEFAULT_HEIGHT, _ => Shows(Look([], []))), seq(DEFAULT_HEIGHT, _ => []);
      fitted, pen, tidy := true, [], true;
    }

    method CodepointColumns(cp: nat) returns (cols: nat)
      requires Sorted(zeroWidth) && Sorted(wide)
      ensures cols == Columns(Glyph(cp)) <= 2
    {
      if cp == 0 {
        return 0;
      }
      var zero := InRanges(cp, zeroWidth);
      if zero {
        return 0;
      }
      var two := InRanges(cp, wide);
      cols := if two then 2 else 1;
    }

    // yc_term_set_size: what the terminal shows is no longer known.
    method SetSize(newWidth: nat, newHeight: nat)
      requires Valid()
      modifies this`width, this`height, this`back, this`front, this`drawn, this`standing, this`fitted, this`screen, this`pens
      ensures Valid() && width == (if newWidth == 0 then 80 else newWidth)
      ensures height == (if newHeight == 0 then 24 else newHeight)
      ensures old(back) <= back && old(drawn) <= drawn
      ensures if width == old(width) && height == old(height)
              then back == old(back) && front == old(front) && screen == old(screen)
              else forall r | 0 <= r < height :: screen[r] == Stale && front[r].bytes == []
    {
      hide RowIs, Write, Stands;
      EmptyIs();
      var w := if newWidth == 0 then DEFAULT_WIDTH else newWidth;
      var h := if newHeight == 0 then DEFAULT_HEIGHT else newHeight;
      if w == width && h == height {
        return;
      }
      width, height := w, h;
      fitted := false;
      MoreRows(h);
      Forget(|back|);
    }

    method Forget(n: nat)
      requires tidy ==> pen == []
      modifies this`front, this`screen, this`pens
      ensures Seen() && |front| == n && forall r | 0 <= r < n :: screen[r] == Stale && front[r].bytes == []
    {
      front := seq(n, _ => EMPTY);
      screen, pens := seq(n, _ => Stale), seq(n, _ => []);
    }

    // rows_resize: there are never fewer rows.
    method MoreRows(h: nat)
      requires |back| == |drawn| == |standing|
      requires forall r | 0 <= r < |back| :: RowIs(back[r], drawn[r]) && Stands(back[r].bytes, standing[r])
      modifies this`back, this`drawn, this`standing
      ensures |back| == |drawn| == |standing| >= h
      ensures old(back) <= back && old(drawn) <= drawn
      ensures forall r | 0 <= r < |back| :: RowIs(back[r], drawn[r]) && Stands(back[r].bytes, standing[r])
    {
      hide RowIs, Stands;
      EmptyIs();
      if h > |back| {
        var more := h - |back|;
        back, drawn := back + seq(more, _ => EMPTY), drawn + seq(more, _ => []);
        standing := standing + seq(more, _ => Untouched);
      }
    }

    method BeginFrame()
      requires Valid()
      modifies this`back, this`drawn, this`standing, this`inFrame, this`currentRow, this`fitted
      ensures Valid() && fitted && inFrame && |back| == old(|back|)
      ensures Frame() == Progress(0, seq(height, _ => Untouched)) && forall r | 0 <= r < height :: drawn[r] == []
    {
      hide RowIs, Render, Width;
      EmptyIs();
      for r := 0 to height
        invariant |back| == |drawn| == |standing| == old(|back|)
        invariant forall k | 0 <= k < r :: back[k] == EMPTY && drawn[k] == [] && standing[k] == Untouched
        invariant forall k | 0 <= k < |back| :: RowIs(back[k], drawn[k]) && Stands(back[k].bytes, standing[k])
      {
        back, drawn, standing := back[r := EMPTY], drawn[r := []], standing[r := Untouched];
      }
      inFrame, currentRow, fitted := true, 0, true;
    }

    lemma EmptyIs()
      ensures RowIs(EMPTY, []) && Stands(EMPTY.bytes, Untouched)
    {
    }

    method RowBegin(row: nat)
      requires Valid()
      modifies this`back, this`drawn, this`standing, this`currentRow
      ensures Valid() && Frame() == Follow(old(Frame()), Call.RowBegin(row)) && |back| == old(|back|)
      ensures drawn == if row < height then old(drawn)[row := []] else old(drawn)
    {
      currentRow := row;
      if row < height {
        back, drawn, standing := back[row := EMPTY], drawn[row := []], standing[row := Untouched];
      }
    }

    lemma RenderMore(items: seq<Item>, item: Item)
      requires AllSendable(items) && Sendable(item)
      ensures AllSendable(items + [item]) && Render(items + [item]) == Render(items) + BytesOf(item)
      ensures Width(items + [item]) == Width(items) + Columns(item)
    {
      assert (items + [item])[..|items|] == items;
      WidthAppend(items, item);
    }

    lemma {:induction false} WidthAppend(items: seq<Item>, item: Item)
      ensures Width(items + [item]) == Width(items) + Columns(item)
    {
      if items == [] {
        assert ([] + [item])[1..] == [];
      } else {
        assert (items + [item])[1..] == items[1..] + [item];
        WidthAppend(items[1..], item);
      }
    }

    lemma RowMore(row: Row, items: seq<Item>, item: Item)
      requires RowIs(row, items) && Sendable(item)
      ensures var more := Row(row.bytes + BytesOf(item), row.cols + Columns(item));
        RowIs(more, items + [item]) && Stands(more.bytes, if item == Attr(RESET) then Ended else Open)
    {
      RenderMore(items, item);
      assert item == Attr(RESET) ==> (row.bytes + RESET)[|row.bytes|..] == RESET;
    }

    lemma NoColumns(item: Item)
      ensures !item.Glyph? ==> Columns(item) == if item.Attr? then 0 else 1
    {
    }

    // buf_add, with the columns the bytes take.
    method Draw(item: Item)
      requires Valid() && currentRow < height && Sendable(item)
      requires fitted ==> back[currentRow].cols + Columns(item) <= width
      modifies this`back, this`drawn, this`standing
      ensures Valid() && drawn == old(drawn)[currentRow := old(drawn)[currentRow] + [item]]
      ensures standing == old(standing)[currentRow := if item == Attr(RESET) then Ended else Open]
      ensures |back| == old(|back|)
      ensures back[currentRow] == Row(old(back)[currentRow].bytes + BytesOf(item), old(back)[currentRow].cols + Columns(item))
    {
      hide RowIs, Stands, BytesOf, Sorted, Seen, Columns;
      var row := back[currentRow];
      RowMore(row, drawn[currentRow], item);
      NoColumns(item);
      var n := 0;
      if item.Glyph? {
        n := CodepointColumns(item.cp);
      } else if !item.Attr? {
        n := 1;
      }
      back := back[currentRow := Row(row.bytes + BytesOf(item), row.cols + n)];
      drawn := drawn[currentRow := drawn[currentRow] + [item]];
      standing := standing[currentRow := if item == Attr(RESET) then Ended else Open];
    }

    // yc_term_row_attr
    method RowAttr(sgr: seq<byte>)
      requires Valid()
      modifies this`back, this`drawn, this`standing
      ensures Valid() && Frame() == Follow(old(Frame()), Call.RowAttr(sgr))
      ensures drawn == if currentRow >= height || sgr == [] then old(drawn)
                       else old(drawn)[currentRow := old(drawn)[currentRow] + [Attr(sgr)]]
      ensures currentRow < height ==>
        back[currentRow] == Row(old(back)[currentRow].bytes + sgr, old(back)[currentRow].cols)
    {
      if currentRow >= height || sgr == [] {
        assert currentRow < height ==> back[currentRow].bytes + [] == back[currentRow].bytes;
        return;
      }
      Draw(Attr(sgr));
    }

    // yc_term_row_puts: the text's items are drawn as far as they fit.
    method RowPuts(text: seq<byte>)
      requires Valid()
      modifies this`back, this`drawn, this`standing
      ensures Valid() && Frame() == Follow(old(Frame()), Call.RowPuts(text))
      ensures currentRow < height ==> forall xs | Encodable(xs) && GoodText(xs) && TextSent(xs) == text ::
        PutRight(old(back)[currentRow], back[currentRow], xs, width, zeroWidth, wide)
      ensures drawn == if currentRow >= height then old(drawn)
                       else old(drawn)[currentRow := old(drawn)[currentRow] + Fit(Items(text), old(back)[currentRow].cols, width)]
    {
      hide RowIs, Sorted, Fit, Items, Columns, Seen, PutRight, GoodText, TextSent, Encodable;
      if currentRow >= height {
        return;
      }
      ghost var before, was := back[currentRow], drawn[currentRow];
      if text == [] {
        FitEnds(text, before.cols);
        assert was + [] == was;
      } else {
        PutAll(text);
        NowOpen(old(standing));
      }
      AllPutRight(before, was, back[currentRow], text);
    }

    lemma AllPutRight(before: Row, was: seq<Item>, after: Row, text: seq<byte>)
      requires RowIs(before, was) && RowIs(after, was + Fit(Items(text), before.cols, width))
      ensures forall xs | Encodable(xs) && GoodText(xs) && TextSent(xs) == text ::
        PutRight(before, after, xs, width, zeroWidth, wide)
    {
      hide RowIs, Fit, Items, PutRight, GoodText, TextSent, Encodable;
      forall xs | Encodable(xs) && GoodText(xs) && TextSent(xs) == text
        ensures PutRight(before, after, xs, width, zeroWidth, wide)
      {
        PutsRight(before, was, after, xs);
      }
    }

    method PutAll(text: seq<byte>)
      requires Valid() && currentRow < height
      modifies this`back, this`drawn, this`standing
      ensures Valid() && (forall r | 0 <= r < |standing| && r != currentRow :: standing[r] == old(standing)[r])
      ensures |standing| == old(|standing|)
      ensures drawn == old(drawn)[currentRow := old(drawn)[currentRow] + Fit(Items(text), old(back)[currentRow].cols, width)]
    {
      hide RowIs, Sorted, Fit, Items, Columns;
      var i, done := 0, false;
      ghost var all, so := Fit(Items(text), back[currentRow].cols, width), [];
      assert text[0..] == text && drawn[currentRow] + so == drawn[currentRow];
      while i < |text| && back[currentRow].cols < width && !done
        invariant Valid() && 0 <= i <= |text| && |standing| == old(|standing|)
        invariant forall r | 0 <= r < |standing| && r != currentRow :: standing[r] == old(standing)[r]
        invariant drawn == old(drawn)[currentRow := old(drawn)[currentRow] + so]
        invariant so + Fit(Items(text[i..]), back[currentRow].cols, width) == all
        invariant done ==> Fit(Items(text[i..]), back[currentRow].cols, width) == []
        decreases |text| - i, if done then 0 else 1
      {
        var used;
        ghost var item;
        used, item := PutOne(text[i..]);
        if used == 0 {
          done := true;
        } else {
          assert text[i..][used..] == text[i + used..];
          GrowRow(old(drawn), currentRow, so, item);
          so := so + [item];
          i := i + used;
        }
      }
      if !done {
        FitEnds(text[i..], back[currentRow].cols);
      }
      assert so + [] == so;
    }

    lemma GrowRow(rows: seq<seq<Item>>, r: nat, so: seq<Item>, item: Item)
      requires r < |rows|
      ensures rows[r := rows[r] + so][r := rows[r := rows[r] + so][r] + [item]] == rows[r := rows[r] + (so + [item])]
    {
      assert (rows[r] + so) + [item] == rows[r] + (so + [item]);
    }

    // One round of the loop: an item is drawn, or the row is at its end.
    method PutOne(rest: seq<byte>) returns (used: nat, ghost item: Item)
      requires Valid() && currentRow < height && rest != [] && back[currentRow].cols < width
      modifies this`back, this`drawn, this`standing
      ensures Valid() && used <= |rest| && |back| == |standing| == old(|back|) == old(|standing|)
      ensures forall r | 0 <= r < |standing| && r != currentRow :: standing[r] == old(standing)[r]
      ensures used == 0 ==> back == old(back) && drawn == old(drawn) && Fit(Items(rest), back[currentRow].cols, width) == []
      ensures used > 0 ==> drawn == old(drawn)[currentRow := old(drawn)[currentRow] + [item]]
      ensures used > 0 ==> forall so ::
        so + Fit(Items(rest), old(back)[currentRow].cols, width)
        == (so + [item]) + Fit(Items(rest[used..]), back[currentRow].cols, width)
    {
      hide RowIs, Sorted, Fit, Items;
      var n, cp := Decode(rest);
      ghost var items, cols := Items(rest), back[currentRow].cols;
      FirstItem(rest, n, cp);
      if n == 0 || cp < 0x20 || cp == 0x7F {
        item := Question;
        Draw(Question);
        used := if n == 0 then 1 else n;
      } else {
        item := Glyph(cp);
        var w := CodepointColumns(cp);
        if back[currentRow].cols + w > width {
          FitNone(items, cols, width);
          return 0, item;
        }
        Draw(Glyph(cp));
        used := n;
      }
      assert items[1..] == Items(rest[used..]);
      forall so
        ensures so + Fit(items, cols, width) == (so + [item]) + Fit(items[1..], cols + Columns(item), width)
      {
        FitOne(items, cols, width, so);
      }
    }

    lemma FitOne(items: seq<Item>, cols: nat, width: nat, so: seq<Item>)
      requires items != [] && cols < width && cols + Columns(items[0]) <= width
      ensures so + Fit(items, cols, width) == (so + [items[0]]) + Fit(items[1..], cols + Columns(items[0]), width)
    {
      assert Fit(items, cols, width) == [items[0]] + Fit(items[1..], cols + Columns(items[0]), width);
    }

    lemma FitNone(items: seq<Item>, cols: nat, width: nat)
      requires items == [] || cols >= width || cols + Columns(items[0]) > width
      ensures Fit(items, cols, width) == []
    {
    }

    lemma FitEnds(text: seq<byte>, cols: nat)
      requires text == [] || cols >= width
      ensures Fit(Items(text), cols, width) == []
    {
    }

    lemma FirstItem(text: seq<byte>, n: nat, cp: nat)
      requires text != []
      requires n > 0 ==> Begins(text, cp) && n == |Encode(cp)|
      requires n == 0 ==> forall c: nat :: !Begins(text, c)
      ensures n <= |text|
      ensures var step := if n == 0 then 1 else n;
        Items(text) == [if n == 0 || cp < 0x20 || cp == 0x7F then Question else Glyph(cp)] + Items(text[step..])
    {
      if n > 0 {
        BeginsOnce(text, cp, Decoded(text).value);
      }
    }

    // ---- what RowPuts comes to ----

    ghost function ItemsOf(xs: seq<Sent>): (items: seq<Item>)
      ensures |items| == |xs|
    {
      seq(|xs|, i requires 0 <= i < |xs| => if xs[i].Good? then Glyph(xs[i].cp) else Question)
    }

    lemma NeverBegun(b: byte, after: seq<byte>)
      requires b >= 0x80 && GoodSent(Bad(b), after)
      ensures forall c: nat :: !Begins([b] + after, c)
    {
      var text := [b] + after;
      if Need(b) > 0 && Need(b) <= |text| {
        assert text[..Need(b)][1] == text[1] == after[0];
        assert !Accepts(text[..Need(b)]);
      }
      NeverBegins(text);
    }

    lemma {:induction false} TextItems(xs: seq<Sent>)
      requires Encodable(xs) && GoodText(xs)
      ensures Items(TextSent(xs)) == ItemsOf(xs) && AllSendable(ItemsOf(xs))
    {
      hide Items, Encode, Decoded;
      if xs == [] {
        NoItems();
      } else {
        TextItems(xs[1..]);
        OneItem(xs[0], TextSent(xs[1..]));
        assert ItemsOf(xs) == ItemsOf([xs[0]]) + ItemsOf(xs[1..]);
      }
    }

    lemma NoItems()
      ensures Items([]) == []
    {
    }

    lemma OneItem(x: Sent, after: seq<byte>)
      requires GoodSent(x, after) && (x.Good? ==> x.cp < 0x140000)
      ensures Items(BytesSent(x) + after) == [if x.Good? then Glyph(x.cp) else Question] + Items(after)
    {
      hide Items, Decoded;
      var text := BytesSent(x) + after;
      if x.Bad? && x.b >= 0x80 {
        NeverBegun(x.b, after);
        FirstItem(text, 0, 0);
        assert text[1..] == after;
      } else {
        var cp := if x.Good? then x.cp else x.b;
        assert Encode(cp) == BytesSent(x) && text[|Encode(cp)|..] == after;
        assert Begins(text, cp);
        FirstItem(text, |Encode(cp)|, cp);
      }
    }

    lemma {:induction false} ShownItems(xs: seq<Sent>)
      requires Encodable(xs) && AllSendable(ItemsOf(xs)) && forall i | 0 <= i < |xs| :: xs[i].Good? ==> xs[i].cp != 0
      ensures Render(ItemsOf(xs)) == BytesShown(xs) && Width(ItemsOf(xs)) == ColumnsShown(xs, zeroWidth, wide)
    {
      hide Render, Encode;
      if xs == [] {
        NothingWritten([]);
      } else {
        var items := ItemsOf(xs);
        assert items[1..] == ItemsOf(xs[1..]) && items[0] == if xs[0].Good? then Glyph(xs[0].cp) else Question;
        ShownItems(xs[1..]);
        RenderFirst(items);
      }
    }

    lemma {:induction false} RenderJoin(a: seq<Item>, b: seq<Item>)
      requires AllSendable(a) && AllSendable(b)
      ensures AllSendable(a + b) && Render(a + b) == Render(a) + Render(b) && Width(a + b) == Width(a) + Width(b)
    {
      hide Sendable, BytesOf, Columns, Render;
      if a == [] {
        NothingWritten([]);
        assert a + b == b && [] + Render(b) == Render(b);
      } else {
        var more := a + b;
        assert more[0] == a[0] && more[1..] == a[1..] + b;
        RenderJoin(a[1..], b);
        assert AllSendable(more) by { assert forall i | 0 <= i < |more| :: more[i] == if i < |a| then a[i] else b[i - |a|]; }
        RenderFirst(a);
        RenderFirst(more);
        Reassociate(BytesOf(a[0]), Render(a[1..]), Render(b));
      }
    }

    // Where Fit stops.
    lemma {:induction false} FitStops(items: seq<Item>, cols: nat) returns (k: nat)
      ensures k <= |items| && Fit(items, cols, width) == items[..k]
      ensures k > 0 ==> cols + Width(items[..k]) <= width && cols + Width(items[..k - 1]) < width
      ensures k < |items| ==> cols + Width(items[..k]) >= width || cols + Width(items[..k + 1]) > width
      decreases |items|
    {
      hide Columns;
      if items == [] || cols >= width {
        k := 0;
        assert items[..0] == [];
      } else {
        var first, rest := items[0], items[1..];
        Prefix(items, 0);
        if cols + Columns(first) > width {
          k := 0;
        } else {
          var j := FitStops(rest, cols + Columns(first));
          k := j + 1;
          Prefix(items, j);
          Prefix(items, if j > 0 then j - 1 else 0);
          Prefix(items, if j < |rest| then j + 1 else j);
        }
      }
    }

    lemma Prefix(items: seq<Item>, j: nat)
      requires items != [] && j < |items|
      ensures items[..0] == [] && Width([]) == 0
      ensures items[..j + 1] == [items[0]] + items[1..][..j]
      ensures Width(items[..j + 1]) == Columns(items[0]) + Width(items[1..][..j])
    {
      hide Columns;
      assert items[..j + 1][1..] == items[1..][..j];
    }

    lemma PutsRight(before: Row, was: seq<Item>, after: Row, xs: seq<Sent>)
      requires RowIs(before, was) && Encodable(xs) && GoodText(xs)
      requires var items := Fit(Items(TextSent(xs)), before.cols, width); RowIs(after, was + items)
      ensures PutRight(before, after, xs, width, zeroWidth, wide)
    {
      hide Fit, Items, Render, Width, BytesShown, ColumnsShown, GoodSent, Encode;
      TextItems(xs);
      Printable(xs);
      var items := ItemsOf(xs);
      var k := FitStops(items, before.cols);
      TakenItems(xs, k);
      RenderJoin(was, items[..k]);
      TakenItems(xs, if k > 0 then k - 1 else 0);
      TakenItems(xs, if k < |xs| then k + 1 else k);
      assert PutFirst(before, after, xs, k, width, zeroWidth, wide);
    }

    lemma {:induction false} Printable(xs: seq<Sent>)
      requires Encodable(xs) && GoodText(xs)
      ensures forall i | 0 <= i < |xs| :: xs[i].Good? ==> xs[i].cp != 0
    {
      hide Encode;
      if xs != [] {
        Printable(xs[1..]);
        assert forall i | 0 < i < |xs| :: xs[i] == xs[1..][i - 1];
      }
    }

    lemma TakenItems(xs: seq<Sent>, k: nat)
      requires k <= |xs| && Encodable(xs) && AllSendable(ItemsOf(xs)) && forall i | 0 <= i < |xs| :: xs[i].Good? ==> xs[i].cp != 0
      ensures Encodable(xs[..k]) && AllSendable(ItemsOf(xs)[..k])
      ensures Render(ItemsOf(xs)[..k]) == BytesShown(xs[..k]) && Width(ItemsOf(xs)[..k]) == ColumnsShown(xs[..k], zeroWidth, wide)
    {
      hide Render, Width, BytesShown, ColumnsShown, Sendable;
      assert ItemsOf(xs)[..k] == ItemsOf(xs[..k]);
      assert AllSendable(ItemsOf(xs[..k])) by { assert forall i | 0 <= i < k :: ItemsOf(xs[..k])[i] == ItemsOf(xs)[i]; }
      ShownItems(xs[..k]);
    }

    // yc_term_row_pad
    method RowPad(toCol: nat)
      requires Valid()
      modifies this`back, this`drawn, this`standing
      ensures Valid() && Frame() == Follow(old(Frame()), Call.RowPad(toCol))
      ensures drawn == if currentRow >= height then old(drawn)
                       else old(drawn)[currentRow := Padded(old(drawn)[currentRow], toCol)]
      ensures currentRow < height ==>
        var row, to := old(back)[currentRow], if toCol > width then width else toCol;
        var n := if row.cols < to then to - row.cols else 0;
        back[currentRow] == Row(row.bytes + seq(n, _ => 32), row.cols + n)
    {
      hide RowIs, Sorted, Columns, Width, Seen;
      if currentRow >= height {
        return;
      }
      RowWidth(currentRow);
      PadTo(if toCol > width then width else toCol);
      NowOpen(old(standing));
    }

    // A row may stand open, whatever it holds.
    method NowOpen(ghost before: seq<Standing>)
      requires Valid() && currentRow < height && |before| == |standing|
      requires forall r | 0 <= r < |standing| && r != currentRow :: standing[r] == before[r]
      modifies this`standing
      ensures Valid() && standing == before[currentRow := Open]
    {
      standing := standing[currentRow := Open];
    }

    method PadTo(to: nat)
      requires Valid() && currentRow < height && to <= width
      modifies this`back, this`drawn, this`standing
      ensures Valid() && forall r | 0 <= r < |standing| && r != currentRow :: standing[r] == old(standing)[r]
      ensures var items := old(drawn)[currentRow];
        drawn == old(drawn)[currentRow := items + seq(if Width(items) < to then to - Width(items) else 0, _ => Blank)]
      ensures |standing| == old(|standing|)
      ensures var row := old(back)[currentRow]; var n := if row.cols < to then to - row.cols else 0;
        back[currentRow] == Row(row.bytes + seq(n, _ => 32), row.cols + n)
    {
      hide RowIs, Sorted, Columns, Width, Stands, Seen;
      ghost var so := [];
      assert drawn[currentRow] + so == drawn[currentRow];
      RowWidth(currentRow);
      OneColumn();
      while back[currentRow].cols < to
        invariant Valid() && |standing| == old(|standing|)
        invariant back[currentRow] == Row(old(back)[currentRow].bytes + seq(|so|, _ => 32), old(back)[currentRow].cols + |so|)
        invariant so == seq(|so|, _ => Blank) && (so != [] ==> back[currentRow].cols <= to)
        invariant drawn == old(drawn)[currentRow := old(drawn)[currentRow] + so]
        invariant forall r | 0 <= r < |standing| && r != currentRow :: standing[r] == old(standing)[r]
        decreases if back[currentRow].cols < to then to - back[currentRow].cols else 0
      {
        Draw(Blank);
        GrowRow(old(drawn), currentRow, so, Blank);
        OneBlank(old(back)[currentRow].bytes, |so|);
        so := so + [Blank];
      }
    }

    lemma OneColumn()
      ensures Columns(Blank) == 1
    {
    }

    lemma OneBlank(bytes: seq<byte>, n: nat)
      ensures bytes + seq(n, _ => 32) + BytesOf(Blank) == bytes + seq(n + 1, _ => 32)
    {
    }

    lemma RowWidth(r: nat)
      requires Valid() && r < |back|
      ensures back[r].cols == Width(drawn[r])
    {
    }

    ghost function Padded(items: seq<Item>, toCol: nat): seq<Item>
      reads this`width
    {
      var to := if toCol > width then width else toCol;
      items + seq(if Width(items) < to then to - Width(items) else 0, _ => Blank)
    }

    // yc_term_row_end: attributes must not leak; and so the row is not empty.
    method RowEnd()
      requires Valid()
      modifies this`back, this`drawn, this`standing
      ensures Valid() && Frame() == Follow(old(Frame()), Call.RowEnd)
      ensures drawn == if currentRow >= height then old(drawn)
                       else old(drawn)[currentRow := old(drawn)[currentRow] + [Attr(RESET)]]
      ensures currentRow < height ==>
        back[currentRow] == Row(old(back)[currentRow].bytes + [27, 91, 48, 109], old(back)[currentRow].cols)
    {
      hide Filled, Seen;
      RowAttr(RESET);
    }

    // ---- the end of a frame ----

    // yc_term_end_frame: only rows that differ are written.  A row then shows
    // what a full repaint would, exactly unless it has been stale since a resize
    // and is empty, or meets other attributes than it would then.
    method EndFrame()
      requires Valid()
      modifies this`front, this`inFrame, this`rowsWritten, this`out, this`screen, this`pen, this`pens, this`tidy
      ensures Valid() && tidy == (old(tidy) && Tidy(standing[..height]))
      ensures out == old(Differing(Texts(back), Texts(front), height)) && rowsWritten == |out|
      ensures forall i, j | 0 <= i < j < |out| :: out[i].row < out[j].row
      ensures forall p :: p in out <==> p.row < height && p.bytes == back[p.row].bytes != old(front)[p.row].bytes
      ensures Shown() == PaintedAll(old(Shown()), out)
      ensures forall r | 0 <= r < height :: front[r].bytes == back[r].bytes
      ensures forall r | height <= r < |front| :: front[r] == old(front)[r] && screen[r] == old(screen)[r]
      ensures var d, texts, was := old(Shown()), Texts(back), Texts(old(front));
        forall r | 0 <= r < height ::
          screen[r] == Repainted(d, texts, height).cells[r]
          <==> !(d.cells[r].Stale? && texts[r] == [])
               && (Meets(r, d, texts, was, old(pens)) == Repainted(d, texts, r).pen || Indifferent(texts[r]))
      ensures tidy ==> var d, texts := old(Shown()), Texts(back);
        pen == [] && forall r | 0 <= r < height ::
          screen[r] == Repainted(d, texts, height).cells[r] <==> !(d.cells[r].Stale? && standing[r].Untouched?)
    {
      hide Filled, Stands, Write, Indifferent, PaintedAll, Differing, Repainted, Closed;
      inFrame := false;
      Sizes();
      ghost var d, texts, was := Shown(), Texts(back), Texts(front);
      ghost var over := Tidy(standing[..height]);
      ghost var before := pens;
      DifferingAre(texts, was, height);
      PaintRows();
      forall r | 0 <= r < height
        ensures screen[r] == Repainted(d, texts, height).cells[r]
          <==> !(d.cells[r].Stale? && texts[r] == [])
               && (Meets(r, d, texts, was, before) == Repainted(d, texts, r).pen || Indifferent(texts[r]))
      {
        RowAsRepainted(d, texts, was, height, r, before[r]);
      }
      if tidy && over {
        AllClosed();
        NoneMet(d, texts, was, before, height);
        assert forall r | height <= r < |pens| :: pens[r] == before[r];
      }
      tidy := tidy && over;
    }

    static lemma NoneMet(d: Display, texts: seq<seq<byte>>, was: seq<seq<byte>>, before: seq<Pen>, h: nat)
      requires h <= |texts| && h <= |was| && h <= |before| && d.pen == [] && forall r | 0 <= r < h :: Closed(texts[r])
      requires forall r | 0 <= r < |before| :: before[r] == []
      ensures Repaired(d, texts, was, h).pen == []
      ensures forall r | 0 <= r < h :: Meets(r, d, texts, was, before) == [] == Repainted(d, texts, r).pen
    {
      hide Closed, Repaired, Repainted;
      NoneCarried(d, texts, was, h);
      forall r | 0 <= r < h
        ensures Meets(r, d, texts, was, before) == [] == Repainted(d, texts, r).pen
      {
        NoneCarried(d, texts, was, r);
      }
    }

    lemma AllClosed()
      requires Filled() && Tidy(standing[..height])
      ensures forall r | 0 <= r < height :: Closed(Texts(back)[r]) && (back[r].bytes == [] <==> standing[r].Untouched?)
    {
      forall r | 0 <= r < height
        ensures Closed(Texts(back)[r]) && (back[r].bytes == [] <==> standing[r].Untouched?)
      {
        assert !standing[..height][r].Open?;
        TidyIsClosed(back[r].bytes, standing[r]);
      }
    }

    // The attributes that row r meets: those with which it is written, or was.
    static ghost function Meets(r: nat, d: Display, texts: seq<seq<byte>>, was: seq<seq<byte>>, before: seq<Pen>): Pen
      requires r < |texts| && r < |was| && r < |before|
    {
      if texts[r] == was[r] then before[r] else Repaired(d, texts, was, r).pen
    }

    // The loop over the rows.
    method PaintRows()
      requires 0 < height <= |back| == |front| && Seen()
      modifies this`front, this`rowsWritten, this`out, this`screen, this`pen, this`pens
      ensures |front| == |screen| == |pens| == |back|
      ensures out == old(Differing(Texts(back), Texts(front), height)) && rowsWritten == |out|
      ensures Shown() == PaintedAll(old(Shown()), out)
      ensures forall r | 0 <= r < height :: front[r].bytes == back[r].bytes
      ensures forall r | 0 <= r < height :: pens[r] == Meets(r, old(Shown()), Texts(back), Texts(old(front)), old(pens))
      ensures forall r | height <= r < |front| ::
        front[r] == old(front)[r] && screen[r] == old(screen)[r] && pens[r] == old(pens)[r]
      ensures forall r | 0 <= r < |front| ::
        screen[r] == Shows(Write(pens[r], front[r].bytes)) || (screen[r] == Stale && front[r].bytes == [])
    {
      hide Write, PaintedAll, Differing, Plain;
      rowsWritten, out := 0, [];
      ghost var d, texts, was := Shown(), Texts(back), Texts(front);
      NothingPainted(d, texts, was);
      for r := 0 to height
        invariant |front| == |screen| == |pens| == |back|
        invariant out == Differing(texts, was, r) && rowsWritten == |out| && Shown() == Repaired(d, texts, was, r)
        invariant forall k | 0 <= k < r :: front[k].bytes == back[k].bytes && pens[k] == Meets(k, d, texts, was, old(pens))
        invariant forall k | r <= k < |front| ::
          front[k] == old(front)[k] && screen[k] == old(screen)[k] && pens[k] == old(pens)[k]
        invariant forall k | 0 <= k < |front| ::
          screen[k] == Shows(Write(pens[k], front[k].bytes)) || (screen[k] == Stale && front[k].bytes == [])
      {
        RepairStep(d, texts, was, r);
        OneMoreRow(texts, was, r);
        assert texts[r] == back[r].bytes && was[r] == front[r].bytes;
        if back[r].bytes != front[r].bytes {
          PaintRow(r);
        }
      }
    }

    method PaintRow(r: nat)
      requires r < |back| && r < |front| == |screen| == |pens|
      modifies this`front, this`rowsWritten, this`out, this`screen, this`pen, this`pens
      ensures out == old(out) + [Paint(r, back[r].bytes)] && rowsWritten == old(rowsWritten) + 1
      ensures front == old(front)[r := back[r]] && pens == old(pens)[r := old(pen)]
      ensures Shown() == Painted(old(Shown()), Paint(r, back[r].bytes))
      ensures screen[r] == Shows(Write(pens[r], back[r].bytes))
      ensures |screen| == old(|screen|) && forall k | 0 <= k < |screen| && k != r :: screen[k] == old(screen)[k]
    {
      hide Write;
      ghost var look := Write(pen, back[r].bytes);
      out := out + [Paint(r, back[r].bytes)];
      screen, pens, pen := screen[r := Shows(look)], pens[r := pen], look.pen;
      rowsWritten := rowsWritten + 1;
      front := front[r := back[r]];
    }

    lemma OneMoreRow(texts: seq<seq<byte>>, was: seq<seq<byte>>, r: nat)
      requires r < |texts| && r < |was|
      ensures Differing(texts, was, r + 1)
           == Differing(texts, was, r) + if texts[r] != was[r] then [Paint(r, texts[r])] else []
    {
    }

    // What Fit takes: as many of the items as there is room for.
    lemma {:induction false} FitIsLongest(items: seq<Item>, cols: nat)
      requires cols <= width
      ensures var taken := Fit(items, cols, width);
        && taken <= items && cols + Width(taken) <= width
        && (|taken| < |items| ==>
              cols + Width(taken) == width || cols + Width(taken) + Columns(items[|taken|]) > width)
      decreases |items|
    {
      if items != [] && cols < width && cols + Columns(items[0]) <= width {
        FitIsLongest(items[1..], cols + Columns(items[0]));
        var taken, rest := Fit(items, cols, width), Fit(items[1..], cols + Columns(items[0]), width);
        assert taken[1..] == rest;
        assert items == [items[0]] + items[1..];
      }
    }

    // A combining mark stays with its character except at the right edge: it
    // is dropped when the character is in the last column, although the
    // comment in the source has it stay.
    lemma MarkAtTheEdge(letter: Item, mark: Item, cols: nat)
      requires Columns(letter) > 0 && Columns(mark) == 0 && cols + Columns(letter) <= width
      ensures Fit([letter, mark], cols, width) == if cols + Columns(letter) < width then [letter, mark] else [letter]
    {
      var next := cols + Columns(letter);
      assert [letter, mark][1..] == [mark] && [mark][1..] == [];
      assert Fit([], next, width) == [];
      assert Fit([mark], next, width) == if next < width then [mark] + Fit([], next, width) else [];
      assert Fit([letter, mark], cols, width) == [letter] + Fit([mark], next, width);
    }

    // ---- whole frames ----

    // What a call draws in the current row.
    ghost function DrawnBy(items: seq<Item>, call: Call): seq<Item>
      reads this`width
    {
      match call
      case RowBegin(_) => []
      case RowAttr(sgr) => if sgr == [] then items else items + [Attr(sgr)]
      case RowPuts(text) => items + Fit(Items(text), Width(items), width)
      case RowPad(toCol) => Padded(items, toCol)
      case RowEnd => items + [Attr(RESET)]
      case _ => items
    }

    ghost function DrawnByAll(blank: seq<seq<Item>>, calls: seq<Call>): (rows: seq<seq<Item>>)
      reads this`width
      ensures |rows| == |blank|
    {
      if calls == [] then blank
      else
        var before, call := calls[..|calls| - 1], calls[|calls| - 1];
        DrawnOn(DrawnByAll(blank, before), FollowAll(Progress(0, seq(|blank|, _ => Untouched)), calls).row, call)
    }

    ghost function DrawnOn(rows: seq<seq<Item>>, row: nat, call: Call): (after: seq<seq<Item>>)
      reads this`width
      ensures |after| == |rows|
    {
      if row < |rows| then rows[row := DrawnBy(rows[row], call)] else rows
    }

    method DrawOne(call: Call)
      requires Valid() && call.Draws()
      modifies this`back, this`drawn, this`standing, this`currentRow
      ensures Valid() && Frame() == Follow(old(Frame()), call)
      ensures drawn[..height] == DrawnOn(old(drawn)[..height], currentRow, call)
    {
      hide Filled, Seen, Fit, Items, Width, Padded;
      Sizes();
      match call
      case RowBegin(row) => RowBegin(row);
      case RowAttr(sgr) => RowAttr(sgr);
      case RowPuts(text) => Widths(); RowPuts(text);
      case RowPad(toCol) => RowPad(toCol);
      case RowEnd => RowEnd();
    }

    lemma Sizes()
      requires Valid()
      ensures 0 < height <= |back| == |drawn| == |standing| == |front| == |screen| == |pens| && Seen()
    {
    }

    lemma Widths()
      requires Valid()
      ensures currentRow < height ==> back[currentRow].cols == Width(drawn[currentRow])
    {
    }

    method DrawAll(calls: seq<Call>)
      requires Valid() && forall k | 0 <= k < |calls| :: calls[k].Draws()
      requires Frame() == Progress(0, seq(height, _ => Untouched)) && forall r | 0 <= r < height :: drawn[r] == []
      modifies this`back, this`drawn, this`standing, this`currentRow
      ensures Valid() && Frame() == FollowAll(Progress(0, seq(height, _ => Untouched)), calls)
      ensures drawn[..height] == DrawnByAll(seq(height, _ => []), calls)
    {
      Sizes();
      hide Valid, Follow, DrawnOn;
      assert calls[..0] == [] && drawn[..height] == seq(height, _ => []);
      for k := 0 to |calls|
        invariant Valid() && height <= |standing| == |drawn|
        invariant Frame() == FollowAll(Progress(0, seq(height, _ => Untouched)), calls[..k])
        invariant drawn[..height] == DrawnByAll(seq(height, _ => []), calls[..k])
      {
        assert calls[..k + 1][..k] == calls[..k];
        DrawOne(calls[k]);
        Sizes();
      }
      assert calls[..|calls|] == calls;
    }

    lemma FrameFits()
      requires Valid() && fitted
      ensures forall r | 0 <= r < height :: RowIs(back[r], drawn[r]) && back[r].cols <= width
    {
    }

    // A frame drawn by any calls that leave no row open shows in every row what
    // a full repaint would, exactly unless the row has been stale since a resize
    // and was not touched.
    method DrawFrame(calls: seq<Call>)
      requires Valid() && tidy && forall k | 0 <= k < |calls| :: calls[k].Draws()
      requires Tidy(FollowAll(Progress(0, seq(height, _ => Untouched)), calls).rows)
      modifies this`back, this`drawn, this`standing, this`inFrame, this`currentRow, this`fitted
      modifies this`front, this`rowsWritten, this`out, this`screen, this`pen, this`pens, this`tidy
      ensures Valid() && tidy && pen == []
      ensures drawn[..height] == DrawnByAll(seq(height, _ => []), calls)
      ensures forall r | 0 <= r < height :: RowIs(back[r], drawn[r]) && back[r].cols <= width
      ensures var standing := FollowAll(Progress(0, seq(height, _ => Untouched)), calls).rows;
        forall r | 0 <= r < height ::
          screen[r] == Repainted(old(Shown()), Texts(back), height).cells[r]
          <==> !(old(screen)[r].Stale? && standing[r].Untouched?)
    {
      hide Filled, Seen, RowIs, Repainted, Indifferent, Differing, PaintedAll, Meets, FollowAll, DrawnByAll;
      BeginFrame();
      Sizes();
      DrawAll(calls);
      Sizes();
      assert forall r | 0 <= r < height :: standing[..height][r] == standing[r];
      EndFrame();
      Sizes();
      FrameFits();
    }
    // Any sequence of calls, and so every state that can be reached.
    method Run(calls: seq<Call>)
      requires Valid()
      modifies this
      ensures Valid()
    {
      for k := 0 to |calls|
        invariant Valid()
      {
        hide Valid;
        match calls[k]
        case SetSize(w, h) => SetSize(w, h);
        case BeginFrame => BeginFrame();
        case EndFrame => EndFrame();
        case call => DrawOne(call);
      }
    }
  }
}
