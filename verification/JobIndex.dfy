// format_index of src/yc-ui.c: how a job's index is written.
module JobIndex {

  // Room for the widest index and its NUL.
  const MAX_WIDTH := 64
  const BUF_SIZE := 72

  const NUL := '\0'

  datatype Base = Decimal | Hex

  datatype Format = Format(width: nat, zeroPad: bool, base: Base)

  function Radix(base: Base): nat {
    if base == Hex then 16 else 10
  }

  const DIGITS := "0123456789abcdef"

  function Digit(d: nat): char
    requires d < 16
  {
    DIGITS[d]
  }

  // The last digit, and the number without it.
  function Last(n: nat, radix: nat): (d: nat)
    requires radix > 0
    ensures d < radix && (n < radix ==> d == n)
  {
    n % radix
  }

  function Rest(n: nat, radix: nat): (q: nat)
    requires radix >= 2
    ensures 2 * q <= n && (q == 0 <==> n < radix)
  {
    HalfAtMost(n, radix);
    n / radix
  }

  lemma HalfAtMost(n: nat, radix: nat)
    requires radix >= 2
    ensures 2 * (n / radix) <= n && (n / radix == 0 <==> n < radix)
  {
    DivMod(n, radix);
    if n < radix {
      SmallQuotient(n, radix);
    } else {
      QuotientPositive(n, radix);
    }
    var q := n / radix;
    assert q * radix >= q * 2 by { Above0(q, radix); }
  }

  lemma Above0(q: nat, radix: nat)
    requires radix >= 2
    ensures q * radix >= q * 2
  {
    assert q * radix == q * 2 + q * (radix - 2);
    assert q * (radix - 2) >= 0;
  }

  lemma QuotientPositive(n: nat, radix: nat)
    requires 0 < radix <= n
    ensures n / radix > 0
  {
  }

  lemma SmallQuotient(n: nat, radix: nat)
    requires n < radix
    ensures n / radix == 0
  {
  }

  lemma DivMod(n: nat, radix: nat)
    requires radix > 0
    ensures n / radix * radix + n % radix == n && 0 <= n % radix < radix
  {
  }

  // The digits of a number, the most significant first.
  function Digits(n: nat, radix: nat): (s: string)
    requires 2 <= radix <= 16
    ensures |s| >= 1
  {
    if n < radix then [Digit(n)] else Digits(Rest(n, radix), radix) + [Digit(Last(n, radix))]
  }

  function Clamp(width: nat): nat {
    if width > MAX_WIDTH then MAX_WIDTH else width
  }

  function Padding(format: Format, n: nat): string {
    var digits, width := |Digits(n, Radix(format.base))|, Clamp(format.width);
    seq(if width > digits then width - digits else 0, _ => if format.zeroPad then '0' else ' ')
  }

  // The whole of it.
  function Written(format: Format, n: nat): string {
    Padding(format, n) + Digits(n, Radix(format.base))
  }

  // What a buffer of n characters can take, besides the NUL.
  function Shortened(s: string, n: nat): string
    requires n > 0
  {
    if |s| < n then s else s[..n - 1]
  }

  // ---- reading it back ----

  predicate IsDigit(c: char, radix: nat) {
    exists d :: 0 <= d < radix && d < 16 && c == Digit(d)
  }

  function DigitValue(c: char): nat {
    if '0' <= c <= '9' then (c as int) - ('0' as int)
    else if 'a' <= c <= 'f' then (c as int) - ('a' as int) + 10
    else 0
  }

  function Value(s: string, radix: nat): nat {
    if s == "" then 0 else Value(s[..|s| - 1], radix) * radix + DigitValue(s[|s| - 1])
  }

  predicate AllDigits(s: string, radix: nat) {
    forall i | 0 <= i < |s| :: IsDigit(s[i], radix)
  }

  lemma DigitIs(d: nat, radix: nat)
    requires d < radix <= 16
    ensures IsDigit(Digit(d), radix) && DigitValue(Digit(d)) == d
    ensures '0' <= Digit(d) <= '9' || 'a' <= Digit(d) <= 'f'
  {
    assert Digit(d) == DIGITS[d];
  }

  lemma {:induction false} DigitsRead(n: nat, radix: nat)
    requires 2 <= radix <= 16
    ensures Value(Digits(n, radix), radix) == n && AllDigits(Digits(n, radix), radix)
  {
    hide Digit, DigitValue, IsDigit, Rest, Last;
    if n < radix {
      DigitIs(n, radix);
      assert [Digit(n)][..0] == "" && Value("", radix) == 0;
    } else {
      DigitsRead(Rest(n, radix), radix);
      DigitIs(Last(n, radix), radix);
      Together(n, radix);
      var init, last := Digits(Rest(n, radix), radix), Digit(Last(n, radix));
      assert (init + [last])[..|init|] == init;
    }
  }

  lemma Together(n: nat, radix: nat)
    requires radix >= 2
    ensures Rest(n, radix) * radix + Last(n, radix) == n
  {
    DivMod(n, radix);
  }

  // Leading zeroes change nothing.
  lemma {:induction false} LeadingZeroes(k: nat, s: string, radix: nat)
    ensures Value(seq(k, _ => '0') + s, radix) == Value(s, radix)
    decreases |s|, k
  {
    var pad := seq(k, _ => '0');
    if s != "" {
      var t := pad + s;
      assert t[..|t| - 1] == pad + s[..|s| - 1];
      LeadingZeroes(k, s[..|s| - 1], radix);
    } else if k > 0 {
      assert pad + s == pad && pad[..k - 1] == seq(k - 1, _ => '0');
      assert seq(k - 1, _ => '0') + "" == seq(k - 1, _ => '0');
      LeadingZeroes(k - 1, "", radix);
    } else {
      assert pad + s == s;
    }
  }

  function SkipSpaces(s: string): string {
    if s != "" && s[0] == ' ' then SkipSpaces(s[1..]) else s
  }

  lemma {:induction false} SkipPadding(k: nat, s: string)
    requires s != "" && s[0] != ' '
    ensures SkipSpaces(seq(k, _ => ' ') + s) == s
    decreases k
  {
    var t := seq(k, _ => ' ') + s;
    if k > 0 {
      assert t[1..] == seq(k - 1, _ => ' ') + s;
      SkipPadding(k - 1, s);
    } else {
      assert t == s;
    }
  }

  // What is written reads back as the index, and is as long as it should be.
  lemma ReadBack(format: Format, n: nat)
    ensures Value(SkipSpaces(Written(format, n)), if format.base.Hex? then 16 else 10) == n
    ensures var digits, width := |Digits(n, if format.base.Hex? then 16 else 10)|, if format.width > 64 then 64 else format.width;
      |Written(format, n)| == if width > digits then width else digits
    ensures var c := if format.zeroPad then '0' else ' ';
      forall i | 0 <= i < |Written(format, n)| - |Digits(n, if format.base.Hex? then 16 else 10)| :: Written(format, n)[i] == c
  {
    WidthIs(format);
    hide Digits, Value, SkipSpaces, Written;
    var radix := Radix(format.base);
    var digits, k, c := Digits(n, radix), |Padding(format, n)|, if format.zeroPad then '0' else ' ';
    DigitsRead(n, radix);
    FirstDigit(n, radix);
    PaddingIs(format, n);
    if format.zeroPad {
      LeadingZeroes(k, digits, radix);
      NoSpaces(seq(k, _ => '0') + digits);
    } else {
      SkipPadding(k, digits);
    }
  }

  lemma PaddingIs(format: Format, n: nat)
    ensures var k, c := |Padding(format, n)|, if format.zeroPad then '0' else ' ';
      Written(format, n) == seq(k, _ => c) + Digits(n, Radix(format.base))
  {
    hide Digits;
    var k, c := |Padding(format, n)|, if format.zeroPad then '0' else ' ';
    assert Padding(format, n) == seq(k, _ => c);
  }

  lemma FirstDigit(n: nat, radix: nat)
    requires 2 <= radix <= 16
    ensures Digits(n, radix)[0] != ' '
  {
    DigitsRead(n, radix);
    assert IsDigit(Digits(n, radix)[0], radix);
  }

  lemma NoSpaces(s: string)
    requires s != "" && s[0] != ' '
    ensures SkipSpaces(s) == s
  {
  }

  // ---- order ----

  // Byte by byte, as file names are sorted.
  predicate Before(s: string, t: string) {
    t != "" && (s == "" || s[0] < t[0] || (s[0] == t[0] && Before(s[1..], t[1..])))
  }

  lemma {:induction false} BeforeLast(s: string, t: string, x: char, y: char)
    requires |s| == |t|
    ensures Before(s + [x], t + [y]) <==> Before(s, t) || (s == t && x < y)
    decreases |s|
  {
    var a, b := s + [x], t + [y];
    if s == "" {
      assert a == [x] && b == [y] && a[1..] == "" && b[1..] == "";
    } else {
      assert a[1..] == s[1..] + [x] && b[1..] == t[1..] + [y];
      BeforeLast(s[1..], t[1..], x, y);
      assert s == t <==> s[0] == t[0] && s[1..] == t[1..] by {
        assert s == [s[0]] + s[1..] && t == [t[0]] + t[1..];
      }
    }
  }

  lemma DigitOrder(x: char, y: char, radix: nat)
    requires 2 <= radix <= 16 && IsDigit(x, radix) && IsDigit(y, radix)
    ensures (x < y <==> DigitValue(x) < DigitValue(y)) && (x == y <==> DigitValue(x) == DigitValue(y))
    ensures DigitValue(x) < radix && DigitValue(y) < radix
  {
    var d: nat :| d < radix && d < 16 && x == Digit(d);
    var e: nat :| e < radix && e < 16 && y == Digit(e);
    hide Digit, IsDigit;
    DigitIs(d, radix);
    DigitIs(e, radix);
  }

  // Numerals of one length are sorted like the numbers.
  lemma {:induction false} NumeralOrder(s: string, t: string, radix: nat)
    requires 2 <= radix <= 16 && |s| == |t| && AllDigits(s, radix) && AllDigits(t, radix)
    ensures Before(s, t) <==> Value(s, radix) < Value(t, radix)
    ensures s == t <==> Value(s, radix) == Value(t, radix)
    decreases |s|
  {
    if s != "" {
      var k := |s| - 1;
      var s', t' := s[..k], t[..k];
      assert s == s' + [s[k]] && t == t' + [t[k]];
      BeforeLast(s', t', s[k], t[k]);
      NumeralOrder(s', t', radix);
      DigitOrder(s[k], t[k], radix);
      Carries(Value(s', radix), DigitValue(s[k]), Value(t', radix), DigitValue(t[k]), radix);
    }
  }

  lemma Carries(a: nat, x: nat, b: nat, y: nat, radix: nat)
    requires x < radix && y < radix
    ensures a * radix + x < b * radix + y <==> a < b || (a == b && x < y)
    ensures a * radix + x == b * radix + y <==> a == b && x == y
  {
    if a < b {
      Above(a, b, radix);
    } else if b < a {
      Above(b, a, radix);
    }
  }

  lemma Above(a: nat, b: nat, radix: nat)
    requires a < b
    ensures a * radix + radix <= b * radix
  {
    var k: nat := b - a - 1;
    assert b * radix == a * radix + radix + k * radix;
    assert k * radix >= 0;
  }

  // The form for file names is padded with zeroes, so that names sort as the
  // indices do, as long as the width holds them.
  lemma FilenamesSort(format: Format, m: nat, n: nat)
    requires var radix := Radix(format.base);
      |Digits(m, radix)| <= Clamp(format.width) && |Digits(n, radix)| <= Clamp(format.width)
    ensures var f := format.(zeroPad := true); Before(Written(f, m), Written(f, n)) <==> m < n
  {
    var f, radix := format.(zeroPad := true), Radix(format.base);
    ZeroPadded(f, m);
    ZeroPadded(f, n);
    NumeralOrder(Written(f, m), Written(f, n), radix);
  }

  lemma ZeroPadded(f: Format, n: nat)
    requires f.zeroPad && |Digits(n, Radix(f.base))| <= Clamp(f.width)
    ensures |Written(f, n)| == Clamp(f.width) && AllDigits(Written(f, n), Radix(f.base))
    ensures Value(Written(f, n), Radix(f.base)) == n
  {
    var radix := Radix(f.base);
    var k := |Padding(f, n)|;
    assert Padding(f, n) == seq(k, _ => '0');
    LeadingZeroes(k, Digits(n, radix), radix);
    DigitsRead(n, radix);
    DigitIs(0, radix);
  }

  // ---- how far names sort ----

  function Pow(radix: nat, k: nat): nat {
    if k == 0 then 1 else Pow(radix, k - 1) * radix
  }

  lemma {:induction false} PowPositive(radix: nat, k: nat)
    requires radix > 0
    ensures Pow(radix, k) > 0
  {
    if k > 0 {
      PowPositive(radix, k - 1);
      Above(0, Pow(radix, k - 1), radix);
    }
  }

  lemma Divided(q: nat, r: nat, radix: nat)
    requires radix >= 2 && r < radix
    ensures Rest(q * radix + r, radix) == q && Last(q * radix + r, radix) == r
  {
    var n := q * radix + r;
    DivMod(n, radix);
    Carries(n / radix, n % radix, q, r, radix);
  }

  // A number has as many digits as it needs.
  lemma {:induction false} DigitCount(n: nat, radix: nat, k: nat)
    requires 2 <= radix <= 16 && k >= 1
    ensures |Digits(n, radix)| <= k <==> n < Pow(radix, k)
    decreases k
  {
    hide Digit, Rest, Last;
    if k == 1 {
      assert Pow(radix, 1) == Pow(radix, 0) * radix == radix;
    } else {
      PowPositive(radix, k - 1);
      Above(0, Pow(radix, k - 1), radix);
      Together(n, radix);
      Carries(Rest(n, radix), Last(n, radix), Pow(radix, k - 1), 0, radix);
      if n >= radix {
        DigitCount(Rest(n, radix), radix, k - 1);
      }
    }
  }

  // The largest number of k digits, and the one after it.
  lemma {:induction false} AroundPow(radix: nat, k: nat)
    requires 2 <= radix <= 16 && k >= 1
    ensures Pow(radix, k) > 0
    ensures var s := Digits(Pow(radix, k) - 1, radix); |s| == k && s[0] == Digit(radix - 1)
    ensures var s := Digits(Pow(radix, k), radix); |s| == k + 1 && s[0] == Digit(1)
  {
    hide Digit, Rest, Last;
    var p := Pow(radix, k - 1);
    PowPositive(radix, k - 1);
    Above(0, p, radix);
    Divided(p, 0, radix);
    Divided(p - 1, radix - 1, radix);
    assert Pow(radix, k) - 1 == (p - 1) * radix + (radix - 1);
    if k == 1 {
      assert p == 1 && Digits(1, radix) == [Digit(1)];
    } else {
      AroundPow(radix, k - 1);
      Above(1, p, radix);
    }
  }

  // How wide a name is at least: as the format says, but never empty.
  function NameWidth(format: Format): (w: nat)
    ensures 1 <= w <= MAX_WIDTH
  {
    if Clamp(format.width) == 0 then 1 else Clamp(format.width)
  }

  lemma WidthIs(format: Format)
    ensures NameWidth(format) == if format.width == 0 then 1 else if format.width > 64 then 64 else format.width
    ensures Radix(format.base) == if format.base.Hex? then 16 else 10
  {
  }

  ghost predicate Sorts(format: Format, count: nat) {
    forall m: nat, n: nat | m < count && n < count ::
      Before(Written(format, m), Written(format, n)) <==> m < n
  }

  lemma OfOneWidth(f: Format, n: nat)
    requires f.zeroPad && n < Pow(Radix(f.base), NameWidth(f))
    ensures var s, radix := Written(f, n), Radix(f.base);
      |s| == NameWidth(f) && AllDigits(s, radix) && Value(s, radix) == n
  {
    var radix := Radix(f.base);
    DigitCount(n, radix, NameWidth(f));
    if Clamp(f.width) > 0 {
      ZeroPadded(f, n);
    } else {
      assert Written(f, n) == Digits(n, radix);
      DigitsRead(n, radix);
    }
  }

  // The names of all indices below `count` sort as the indices do, exactly if the
  // width holds the digits of each of them.
  lemma NamesSortUpTo(format: Format, count: nat)
    requires format.zeroPad
    ensures var width := if format.width == 0 then 1 else if format.width > 64 then 64 else format.width;
      Sorts(format, count) <==> count <= Pow(if format.base.Hex? then 16 else 10, width)
  {
    WidthIs(format);
    hide Written, Before, Pow, NameWidth;
    var radix := Radix(format.base);
    var p := Pow(radix, NameWidth(format));
    if count <= p {
      forall m: nat, n: nat | m < count && n < count
        ensures Before(Written(format, m), Written(format, n)) <==> m < n
      {
        OfOneWidth(format, m);
        OfOneWidth(format, n);
        NumeralOrder(Written(format, m), Written(format, n), radix);
      }
    } else {
      TooWide(format);
    }
  }

  // The last name that fits comes after the next one.
  lemma TooWide(format: Format)
    requires format.zeroPad
    ensures var p := Pow(Radix(format.base), NameWidth(format));
      p > 0 && !Before(Written(format, p - 1), Written(format, p))
  {
    var radix := Radix(format.base);
    var p := Pow(radix, NameWidth(format));
    AroundPow(radix, NameWidth(format));
    hide Pow;
    var last, next := Written(format, p - 1), Written(format, p);
    assert last == Digits(p - 1, radix) && next == Digits(p, radix);
    assert last[0] > next[0];
  }

  // Beyond the width, names no longer sort: '10' comes before '9'.
  lemma TooNarrow()
    ensures var f := Format(1, true, Decimal); Before(Written(f, 10), Written(f, 9))
  {
    var f := Format(1, true, Decimal);
    assert Digits(1, 10) == [Digit(1)] && Digits(10, 10) == [Digit(1)] + [Digit(0)];
    assert Padding(f, 10) == "" && Padding(f, 9) == "";
    assert Written(f, 10)[0] == '1' && Written(f, 9)[0] == '9';
  }

  // ---- the program ----

  function Power(k: nat): nat {
    if k == 0 then 1 else 2 * Power(k - 1)
  }

  lemma {:induction false} FewDigits(n: nat, radix: nat, k: nat)
    requires 2 <= radix <= 16 && k >= 1 && n < Power(k)
    ensures |Digits(n, radix)| <= k
    decreases k
  {
    assert Power(1) == 2 * Power(0) == 2;
    if n >= radix {
      FewDigits(Rest(n, radix), radix, k - 1);
    }
  }

  // The digit loop, for a 64-bit index: the last digit comes out first.
  method MakeDigits(index: nat, radix: nat, digits: array<char>) returns (n: nat)
    requires index < Power(64) && 2 <= radix <= 16 && digits.Length >= MAX_WIDTH
    modifies digits
    ensures n == |Digits(index, radix)| <= digits.Length
    ensures forall i | 0 <= i < n :: digits[i] == Digits(index, radix)[n - 1 - i]
  {
    hide Digit, Rest, Last, Power;
    FewDigits(index, radix, 64);
    ghost var all := Digits(index, radix);
    var rest: nat := index;
    OneDigit(rest, radix);
    digits[0] := Digit(Last(rest, radix));
    rest, n := Rest(rest, radix), 1;
    while rest != 0
      invariant 1 <= n <= |all| && (rest == 0 ==> n == |all|)
      invariant rest > 0 ==> n < |all| && all[..|all| - n] == Digits(rest, radix)
      invariant forall i | 0 <= i < n :: digits[i] == all[|all| - 1 - i]
      decreases rest
    {
      OneDigit(rest, radix);
      ghost var left := all[..|all| - n];
      assert left[|left| - 1] == all[|all| - 1 - n];
      assert all[..|all| - (n + 1)] == left[..|left| - 1];
      digits[n] := Digit(Last(rest, radix));
      rest, n := Rest(rest, radix), n + 1;
    }
  }

  // The last digit of a numeral, and those before it.
  lemma OneDigit(n: nat, radix: nat)
    requires 2 <= radix <= 16
    ensures var s := Digits(n, radix); var k := |s| - 1;
      && s[k] == Digit(Last(n, radix))
      && if Rest(n, radix) == 0 then k == 0 else k > 0 && s[..k] == Digits(Rest(n, radix), radix)
  {
    hide Digit, Rest, Last;
  }

  method WritePadding(c: char, count: nat, buf: array<char>) returns (out: nat)
    requires buf.Length > 0
    modifies buf
    ensures out == if count < buf.Length then count else buf.Length - 1
    ensures forall i | 0 <= i < out :: buf[i] == c
  {
    var nPad := count;
    out := 0;
    while nPad > 0 && out + 1 < buf.Length
      invariant out < buf.Length && 0 <= nPad && out + nPad == count
      invariant forall i | 0 <= i < out :: buf[i] == c
    {
      buf[out] := c;
      out, nPad := out + 1, nPad - 1;
    }
  }

  method WriteDigits(digits: array<char>, n: nat, buf: array<char>, start: nat, ghost all: string) returns (out: nat)
    requires n <= digits.Length && start < buf.Length && digits != buf
    requires n == |all| && forall i | 0 <= i < n :: digits[i] == all[n - 1 - i]
    modifies buf
    ensures out == if start + n < buf.Length then start + n else buf.Length - 1
    ensures forall i | 0 <= i < start :: buf[i] == old(buf[i])
    ensures forall i | start <= i < out :: buf[i] == all[i - start]
  {
    var nDigits := n;
    out := start;
    while nDigits > 0 && out + 1 < buf.Length
      invariant start <= out < buf.Length && 0 <= nDigits && out - start == n - nDigits
      invariant forall i | 0 <= i < start :: buf[i] == old(buf[i])
      invariant forall i | start <= i < out :: buf[i] == all[i - start]
    {
      nDigits := nDigits - 1;
      buf[out] := digits[nDigits];
      out := out + 1;
    }
  }

  lemma Assembled(pad: string, digits: string, s: string, size: nat, padded: nat)
    requires size > 0 && padded == (if |pad| < size then |pad| else size - 1)
    requires |s| == if padded + |digits| < size then padded + |digits| else size - 1
    requires forall i | 0 <= i < padded :: s[i] == pad[i]
    requires forall i | padded <= i < |s| :: s[i] == digits[i - padded]
    ensures s == Shortened(pad + digits, size)
  {
  }

  method FormatIndex(format: Format, index: nat, buf: array<char>)
    requires index < Power(64)
    modifies buf
    ensures buf.Length > 0 ==>
      var text := Shortened(Written(format, index), buf.Length);
      |text| < buf.Length && buf[..|text|] == text && buf[|text|] == NUL
  {
    if buf.Length == 0 {
      return;
    }
    hide Digits, Power, Shortened;
    var digits := new char[BUF_SIZE](_ => NUL);
    var nDigits := MakeDigits(index, Radix(format.base), digits);
    var width := Clamp(format.width);
    var nPad := if width > nDigits then width - nDigits else 0;
    ghost var all, pad := Digits(index, Radix(format.base)), Padding(format, index);
    var padded := WritePadding(if format.zeroPad then '0' else ' ', nPad, buf);
    assert forall i | 0 <= i < padded :: buf[i] == pad[i];
    var out := WriteDigits(digits, nDigits, buf, padded, all);
    Assembled(pad, all, buf[..out], buf.Length, padded);
    EndText(buf, out);
  }

  method EndText(buf: array<char>, out: nat)
    requires out < buf.Length
    modifies buf
    ensures buf[..out] == old(buf[..out]) && buf[out] == NUL
  {
    buf[out] := NUL;
  }
}
