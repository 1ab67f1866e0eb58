// What a terminal makes of the rows that src/yc-term.c sends to it.  Attributes
// stay in force until they are reset, also from one row to the next.
module TerminalDisplay {
  import opened Basics

  const ESC: byte := 27
  const BRACKET: byte := 91
  const LETTER_M: byte := 109

  // SGR 0, and its short form.
  const RESET: seq<byte> := [ESC, BRACKET, 48, LETTER_M]
  const SHORT_RESET: seq<byte> := [ESC, BRACKET, LETTER_M]

  // The attributes in force: the SGR sequences since the last reset.
  type Pen = seq<byte>

  // A byte as it is shown, and a row: its bytes, and the attributes with which
  // the rest of it is cleared.
  datatype Mark = Mark(pen: Pen, b: byte)
  datatype Look = Look(marks: seq<Mark>, pen: Pen)

  // ---- one row ----

  predicate IsParam(b: byte) {
    48 <= b <= 57 || b == 59
  }

  function Params(s: seq<byte>): (n: nat)
    ensures n <= |s| && (n < |s| ==> !IsParam(s[n])) && forall i | 0 <= i < n :: IsParam(s[i])
  {
    if s == [] || !IsParam(s[0]) then 0 else 1 + Params(s[1..])
  }

  // The length of the SGR sequence that a text begins with, or 0.
  function SgrLength(s: seq<byte>): (n: nat)
    ensures n <= |s| && (n > 0 ==> s[0] == ESC)
  {
    if |s| >= 2 && s[0] == ESC && s[1] == BRACKET then
      var k := 2 + Params(s[2..]);
      if k < |s| && s[k] == LETTER_M then k + 1 else 0
    else 0
  }

  predicate IsReset(sgr: seq<byte>) {
    sgr == RESET || sgr == SHORT_RESET
  }

  function NextPen(pen: Pen, sgr: seq<byte>): Pen {
    if IsReset(sgr) then [] else pen + sgr
  }

  // A row written with these attributes in force.
  function Write(pen: Pen, s: seq<byte>): Look
    decreases |s|
  {
    if s == [] then Look([], pen)
    else
      var n := SgrLength(s);
      if n > 0 then Write(NextPen(pen, s[..n]), s[n..])
      else
        var rest := Write(pen, s[1..]);
        Look([Mark(pen, s[0])] + rest.marks, rest.pen)
  }

  // The row leaves no attribute in force if there was none.
  predicate Closed(s: seq<byte>) {
    Write([], s).pen == []
  }

  // The row resets the attributes before it shows anything.
  predicate Indifferent(s: seq<byte>)
    decreases |s|
  {
    var n := SgrLength(s);
    n > 0 && (IsReset(s[..n]) || Indifferent(s[n..]))
  }

  lemma {:induction false} SameIff(p: Pen, q: Pen, s: seq<byte>)
    ensures Write(p, s) == Write(q, s) <==> p == q || Indifferent(s)
    decreases |s|
  {
    var n := SgrLength(s);
    if n > 0 {
      var sgr := s[..n];
      SameIff(NextPen(p, sgr), NextPen(q, sgr), s[n..]);
      assert p + sgr == q + sgr ==> (p + sgr)[..|p + sgr| - n] == p && (q + sgr)[..|p + sgr| - n] == q;
    } else if s != [] {
      SameIff(p, q, s[1..]);
      assert Write(p, s).marks[0] == Mark(p, s[0]) && Write(q, s).marks[0] == Mark(q, s[0]);
    }
  }

  // An ESC ends whatever was begun before it.
  lemma {:induction false} ParamsStop(a: seq<byte>, b: seq<byte>)
    requires b != [] && !IsParam(b[0])
    ensures Params(a + b) == Params(a)
  {
    if a == [] {
      assert a + b == b;
    } else {
      assert (a + b)[1..] == a[1..] + b;
      ParamsStop(a[1..], b);
    }
  }

  lemma SgrStops(a: seq<byte>, b: seq<byte>)
    requires a != [] && b != [] && b[0] == ESC
    ensures SgrLength(a + b) == SgrLength(a)
  {
    if |a| >= 2 {
      assert (a + b)[2..] == a[2..] + b;
      ParamsStop(a[2..], b);
    }
  }

  // ESC, a bracket, digits and semicolons, and an m: a reset, if there is at
  // most a single zero, and otherwise one more attribute.
  lemma SgrForm(pen: Pen, params: seq<byte>, rest: seq<byte>)
    requires forall i | 0 <= i < |params| :: 48 <= params[i] <= 57 || params[i] == 59
    ensures var sgr := [27, 91] + params + [109];
      Write(pen, sgr + rest) == Write(if params == [] || params == [48] then [] else pen + sgr, rest)
  {
    hide Write;
    var sgr: seq<byte> := [27, 91] + params + [109];
    var s := sgr + rest;
    assert s[2..] == params + ([109] + rest);
    OnlyParams(params, [109] + rest);
    assert SgrLength(s) == |sgr| && s[..|sgr|] == sgr && s[|sgr|..] == rest;
    assert params == sgr[2..|sgr| - 1];
    WriteSgr(pen, s, |sgr|);
  }

  lemma WriteSgr(pen: Pen, s: seq<byte>, n: nat)
    requires 0 < n <= |s| && SgrLength(s) == n
    ensures Write(pen, s) == Write(NextPen(pen, s[..n]), s[n..])
  {
  }

  lemma {:induction false} OnlyParams(params: seq<byte>, rest: seq<byte>)
    requires forall i | 0 <= i < |params| :: IsParam(params[i])
    requires rest != [] && !IsParam(rest[0])
    ensures Params(params + rest) == |params|
  {
    if params == [] {
      assert params + rest == rest;
    } else {
      assert (params + rest)[1..] == params[1..] + rest;
      OnlyParams(params[1..], rest);
    }
  }

  // Whatever comes before it, a reset at the end of a row closes the row.
  lemma {:induction false} ResetCloses(pen: Pen, a: seq<byte>)
    ensures Write(pen, a + RESET).pen == []
    decreases |a|
  {
    if a == [] {
      assert a + RESET == RESET && RESET[2..] == [48, LETTER_M] && [48, LETTER_M][1..] == [LETTER_M];
      assert Params([LETTER_M as byte]) == 0;
      assert SgrLength(RESET) == 4 && RESET[..4] == RESET;
    } else {
      SgrStops(a, RESET);
      var n := SgrLength(a);
      if n > 0 {
        assert (a + RESET)[n..] == a[n..] + RESET;
        ResetCloses(NextPen(pen, (a + RESET)[..n]), a[n..]);
      } else {
        assert (a + RESET)[1..] == a[1..] + RESET;
        ResetCloses(pen, a[1..]);
      }
    }
  }

  // ---- the screen ----

  // What is shown in a row, as far as is known.
  datatype Cell = Stale | Shows(look: Look)

  datatype Display = Display(cells: seq<Cell>, pen: Pen)

  // A row sent to the terminal: move there, write, clear the rest.
  datatype Paint = Paint(row: nat, bytes: seq<byte>)

  // The first n rows that differ, and the first n rows altogether.
  ghost function Differing(back: seq<seq<byte>>, front: seq<seq<byte>>, n: nat): seq<Paint>
    requires n <= |back| && n <= |front|
  {
    if n == 0 then []
    else Differing(back, front, n - 1) + if back[n - 1] != front[n - 1] then [Paint(n - 1, back[n - 1])] else []
  }

  // Each row that differs, once, in order.
  lemma {:induction false} DifferingAre(back: seq<seq<byte>>, front: seq<seq<byte>>, n: nat)
    requires n <= |back| && n <= |front|
    ensures var out := Differing(back, front, n);
      && (forall i, j | 0 <= i < j < |out| :: out[i].row < out[j].row)
      && (forall p :: p in out <==> p.row < n && p.bytes == back[p.row] != front[p.row])
  {
    if n > 0 {
      DifferingAre(back, front, n - 1);
      var before := Differing(back, front, n - 1);
      forall i | 0 <= i < |before|
        ensures before[i].row < n - 1
      {
        assert before[i] in before;
      }
    }
  }

  ghost function Every(back: seq<seq<byte>>, n: nat): seq<Paint>
    requires n <= |back|
  {
    if n == 0 then [] else Every(back, n - 1) + [Paint(n - 1, back[n - 1])]
  }

  ghost function Painted(d: Display, paint: Paint): (after: Display)
    ensures |after.cells| == |d.cells|
  {
    var look := Write(d.pen, paint.bytes);
    Display(if paint.row < |d.cells| then d.cells[paint.row := Shows(look)] else d.cells, look.pen)
  }

  ghost function PaintedAll(d: Display, out: seq<Paint>): (after: Display)
    ensures |after.cells| == |d.cells|
  {
    if out == [] then d else Painted(PaintedAll(d, out[..|out| - 1]), out[|out| - 1])
  }

  lemma PaintOne(d: Display, out: seq<Paint>, paint: Paint)
    ensures PaintedAll(d, out + [paint]) == Painted(PaintedAll(d, out), paint)
  {
    assert (out + [paint])[..|out|] == out;
  }

  // The screen after the rows that differ, and after a full repaint.
  ghost function Repaired(d: Display, back: seq<seq<byte>>, front: seq<seq<byte>>, n: nat): (after: Display)
    requires n <= |back| && n <= |front|
    ensures |after.cells| == |d.cells|
  {
    PaintedAll(d, Differing(back, front, n))
  }

  ghost function Repainted(d: Display, back: seq<seq<byte>>, n: nat): (after: Display)
    requires n <= |back|
    ensures |after.cells| == |d.cells|
  {
    PaintedAll(d, Every(back, n))
  }

  lemma NothingPainted(d: Display, back: seq<seq<byte>>, front: seq<seq<byte>>)
    ensures Differing(back, front, 0) == [] && Repaired(d, back, front, 0) == d
  {
  }

  lemma RepairStep(d: Display, back: seq<seq<byte>>, front: seq<seq<byte>>, n: nat)
    requires n < |back| && n < |front|
    ensures Repaired(d, back, front, n + 1)
         == if back[n] == front[n] then Repaired(d, back, front, n)
            else Painted(Repaired(d, back, front, n), Paint(n, back[n]))
  {
    if back[n] == front[n] {
      assert Differing(back, front, n + 1) == Differing(back, front, n);
    } else {
      PaintOne(d, Differing(back, front, n), Paint(n, back[n]));
    }
  }

  lemma RepaintStep(d: Display, back: seq<seq<byte>>, n: nat)
    requires n < |back|
    ensures Repainted(d, back, n + 1) == Painted(Repainted(d, back, n), Paint(n, back[n]))
  {
    PaintOne(d, Every(back, n), Paint(n, back[n]));
  }

  lemma {:induction false} RepairedRow(d: Display, back: seq<seq<byte>>, front: seq<seq<byte>>, n: nat, r: nat)
    requires n <= |back| && n <= |front| && r < |d.cells|
    ensures Repaired(d, back, front, n).cells[r]
         == if r < n && back[r] != front[r] then Shows(Write(Repaired(d, back, front, r).pen, back[r])) else d.cells[r]
  {
    hide Write, Repaired;
    if n == 0 {
      NothingPainted(d, back, front);
    } else {
      RepairStep(d, back, front, n - 1);
      RepairedRow(d, back, front, n - 1, r);
    }
  }

  lemma {:induction false} RepaintedRow(d: Display, back: seq<seq<byte>>, n: nat, r: nat)
    requires n <= |back| && r < |d.cells|
    ensures Repainted(d, back, n).cells[r]
         == if r < n then Shows(Write(Repainted(d, back, r).pen, back[r])) else d.cells[r]
  {
    hide Write;
    if n > 0 {
      RepaintStep(d, back, n - 1);
      RepaintedRow(d, back, n - 1, r);
    }
  }

  // Row r, which was last written with the attributes p: after writing what
  // differs it is as after a full repaint, exactly if it is not stale and left
  // out, and meets the same attributes either way or resets them at once.
  lemma RowAsRepainted(d: Display, back: seq<seq<byte>>, front: seq<seq<byte>>, h: nat, r: nat, p: Pen)
    requires r < h <= |back| && h <= |front| && h <= |d.cells|
    requires d.cells[r] == Shows(Write(p, front[r])) || (d.cells[r] == Stale && front[r] == [])
    ensures var meets := if back[r] == front[r] then p else Repaired(d, back, front, r).pen;
      Repaired(d, back, front, h).cells[r] == Repainted(d, back, h).cells[r]
      <==> !(d.cells[r].Stale? && back[r] == []) && (meets == Repainted(d, back, r).pen || Indifferent(back[r]))
  {
    hide Write, Indifferent, Repaired, Repainted;
    RepairedRow(d, back, front, h, r);
    RepaintedRow(d, back, h, r);
    SameIff(if back[r] == front[r] then p else Repaired(d, back, front, r).pen, Repainted(d, back, r).pen, back[r]);
  }

  // While all rows are closed, no attribute is ever carried on.
  lemma {:induction false} NoneCarried(d: Display, back: seq<seq<byte>>, front: seq<seq<byte>>, n: nat)
    requires n <= |back| && n <= |front| && d.pen == [] && forall r | 0 <= r < n :: Closed(back[r])
    ensures Repaired(d, back, front, n).pen == [] == Repainted(d, back, n).pen
  {
    hide Write;
    if n > 0 {
      RepairStep(d, back, front, n - 1);
      RepaintStep(d, back, n - 1);
      NoneCarried(d, back, front, n - 1);
      assert Closed(back[n - 1]);
    }
  }

  // ---- which frames are painted right ----

  // Rows that were written with no attribute in force, as after the last frame.
  ghost function Shown(front: seq<seq<byte>>): Display {
    Display(seq(|front|, r requires 0 <= r < |front| => Shows(Write([], front[r]))), [])
  }

  // Writing what differs shows what a full repaint would.
  ghost predicate Right(front: seq<seq<byte>>, back: seq<seq<byte>>)
    requires |front| == |back|
  {
    Repaired(Shown(front), back, front, |back|).cells == Repainted(Shown(front), back, |back|).cells
  }

  // The same, and no attribute is left in force for the next frame.
  ghost predicate RightAndOver(front: seq<seq<byte>>, back: seq<seq<byte>>)
    requires |front| == |back|
  {
    Right(front, back) && Repaired(Shown(front), back, front, |back|).pen == []
  }

  ghost predicate Settled(back: seq<seq<byte>>) {
    forall k, r | 0 <= k < r < |back| :: Closed(back[k]) || Indifferent(back[r])
  }

  lemma SettledIsRight(front: seq<seq<byte>>, back: seq<seq<byte>>)
    requires |front| == |back| && Settled(back)
    ensures Right(front, back)
  {
    hide Write, Repaired, Repainted, Closed, Indifferent;
    var d, h := Shown(front), |back|;
    forall r | 0 <= r < h
      ensures Repaired(d, back, front, h).cells[r] == Repainted(d, back, h).cells[r]
    {
      RowAsRepainted(d, back, front, h, r, []);
      if !Indifferent(back[r]) {
        NoneCarried(d, back, front, r);
      }
    }
  }

  // Some other text.
  function Other(s: seq<byte>): (t: seq<byte>)
    ensures t != s
  {
    s + [0]
  }

  // Between rows that are left out nothing happens.
  lemma {:induction false} NothingBetween(d: Display, back: seq<seq<byte>>, front: seq<seq<byte>>, m: nat, n: nat)
    requires m <= n <= |back| && n <= |front| && forall r | m <= r < n :: back[r] == front[r]
    ensures Repaired(d, back, front, n) == Repaired(d, back, front, m)
  {
    if m < n {
      NothingBetween(d, back, front, m, n - 1);
      RepairStep(d, back, front, n - 1);
    }
  }

  // If only row k differs up to row n, what it leaves in force is met there.
  lemma OneOpen(d: Display, back: seq<seq<byte>>, front: seq<seq<byte>>, k: nat, n: nat)
    requires k < n <= |back| && n <= |front| && d.pen == [] && back[k] != front[k]
    requires forall r | 0 <= r < n && r != k :: back[r] == front[r]
    ensures Repaired(d, back, front, n).pen == Write([], back[k]).pen
  {
    hide Write;
    NothingBetween(d, back, front, 0, k);
    RepairStep(d, back, front, k);
    NothingBetween(d, back, front, k + 1, n);
  }

  lemma {:induction false} SamePen(d: Display, e: Display, back: seq<seq<byte>>, n: nat)
    requires n <= |back| && d.pen == e.pen
    ensures Repainted(d, back, n).pen == Repainted(e, back, n).pen
  {
    hide Write;
    if n > 0 {
      SamePen(d, e, back, n - 1);
      RepaintStep(d, back, n - 1);
      RepaintStep(e, back, n - 1);
    }
  }

  // A row left open goes wrong before a row that does not reset: on some screen.
  lemma Unsettled(back: seq<seq<byte>>, k: nat, r: nat) returns (front: seq<seq<byte>>)
    requires k < r < |back| && !Closed(back[k]) && !Indifferent(back[r])
    ensures |front| == |back| && !Right(front, back)
  {
    hide Write, Repaired, Repainted, Indifferent;
    var h := |back|;
    var full := Repainted(Shown(back), back, r).pen;
    front := if full == [] then back[k := Other(back[k])][r := Other(back[r])] else back;
    var d := Shown(front);
    SamePen(d, Shown(back), back, r);
    if full == [] {
      OneOpen(d, back, front, k, r);
    }
    RowAsRepainted(d, back, front, h, r, []);
  }

  // A frame is painted right over any other, exactly if each row that leaves
  // attributes in force is followed only by rows that reset them at once.
  lemma RightOverAny(back: seq<seq<byte>>)
    ensures (forall front | |front| == |back| :: Right(front, back)) <==> Settled(back)
  {
    hide Right, Write, Closed, Indifferent;
    if Settled(back) {
      forall front | |front| == |back|
        ensures Right(front, back)
      {
        SettledIsRight(front, back);
      }
    } else {
      var k, r :| 0 <= k < r < |back| && !Closed(back[k]) && !Indifferent(back[r]);
      var front := Unsettled(back, k, r);
    }
  }

  // It also leaves nothing behind for the next, exactly if every row is closed.
  lemma OverAnyAndOver(back: seq<seq<byte>>)
    ensures (forall front | |front| == |back| :: RightAndOver(front, back)) <==> forall r | 0 <= r < |back| :: Closed(back[r])
  {
    hide Right, Write, Repaired, Repainted, Indifferent;
    if r :| 0 <= r < |back| && !Closed(back[r]) {
      var front := back[r := Other(back[r])];
      OneOpen(Shown(front), back, front, r, |back|);
      assert !RightAndOver(front, back);
    } else {
      forall front | |front| == |back|
        ensures RightAndOver(front, back)
      {
        SettledIsRight(front, back);
        NoneCarried(Shown(front), back, front, |back|);
      }
    }
  }

  // SGR 7.
  const REVERSE: seq<byte> := [ESC, BRACKET, 55, LETTER_M]

  // An open row also spoils the frame after its own: 'A' in reverse, not ended,
  // has the 'B' below it shown in reverse, and so it stays when the next frame
  // has the same row there and only the first one differs.
  lemma OpenRowSpoilsTheNextFrame()
    ensures var b := [66] + RESET;
      var first, second := [REVERSE + [65], b], [[65] + RESET, b];
      var d := Repaired(Shown([[], []]), first, [[], []], 2);
      Repaired(d, second, first, 2).cells[1] != Repainted(d, second, 2).cells[1]
  {
    var none: seq<seq<byte>>, a: seq<byte>, b: seq<byte> := [[], []], [65], [66] + RESET;
    var first, second := [REVERSE + a, b], [a + RESET, b];
    var d0 := Shown(none);
    var d := Repaired(d0, first, none, 2);
    Reversed();
    RepairStep(d0, first, none, 0);
    RepairStep(d0, first, none, 1);
    RepairedRow(d0, first, none, 2, 1);
    RepairStep(d, second, first, 0);
    RepaintStep(d, second, 0);
    ResetCloses(d.pen, a);
    RowAsRepainted(d, second, first, 2, 1, REVERSE);
  }

  lemma Reversed()
    ensures Write([], REVERSE + [65]).pen == REVERSE && !Indifferent([66] + RESET)
    ensures Write(REVERSE, [66] + RESET).pen == []
  {
    assert REVERSE[2..] == [55, LETTER_M] && [55, LETTER_M][1..] == [LETTER_M];
    assert (REVERSE + [65])[2..] == [55, LETTER_M, 65] && [55, LETTER_M, 65][1..] == [LETTER_M, 65];
    assert Params([LETTER_M, 65]) == 0;
    assert SgrLength(REVERSE + [65]) == 4;
    assert (REVERSE + [65])[..4] == REVERSE && (REVERSE + [65])[4..] == [65] && [65][1..] == [];
    assert Write(REVERSE, []).pen == REVERSE;
    assert Write(REVERSE, [65]).pen == REVERSE;
    ResetCloses(REVERSE, [66]);
  }
}
