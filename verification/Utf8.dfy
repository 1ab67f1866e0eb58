// utf8_decode of src/yc-term.c against the encoding of section 3 of RFC 3629.
module Utf8 {
  import opened Basics

  // The values accepted: all scalar values, and what lead byte F4 can reach
  // beyond U+10FFFF, since the decoder does not cap it there.
  const LIMIT := 0x140000

  predicate IsCodePoint(cp: nat) {
    cp < LIMIT && !(0xD800 <= cp <= 0xDFFF)
  }

  predicate IsScalarValue(cp: nat) {
    cp <= 0x10FFFF && !(0xD800 <= cp <= 0xDFFF)
  }

  function Tail(x: nat): byte {
    0x80 + x % 64
  }

  // The shortest form.
  function Encode(cp: nat): (s: seq<byte>)
    requires cp < LIMIT
    ensures 1 <= |s| <= 4
  {
    if cp < 0x80 then [cp]
    else if cp < 0x800 then [0xC0 + cp / 64, Tail(cp)]
    else if cp < 0x10000 then [0xE0 + cp / 64 / 64, Tail(cp / 64), Tail(cp)]
    else [0xF0 + cp / 64 / 64 / 64, Tail(cp / 64 / 64), Tail(cp / 64), Tail(cp)]
  }

  // The table of section 3 of RFC 3629: six bits to each byte after the first.
  lemma EncodedBits(cp: nat)
    requires cp < 0x140000
    ensures Encode(cp) ==
      if cp <= 0x7F then [cp]
      else if cp <= 0x7FF then [0xC0 + cp / 0x40, 0x80 + cp % 0x40]
      else if cp <= 0xFFFF then [0xE0 + cp / 0x1000, 0x80 + cp / 0x40 % 0x40, 0x80 + cp % 0x40]
      else [0xF0 + cp / 0x40000, 0x80 + cp / 0x1000 % 0x40, 0x80 + cp / 0x40 % 0x40, 0x80 + cp % 0x40]
  {
    assert cp / 64 / 64 == cp / 0x1000 && cp / 64 / 64 / 64 == cp / 0x40000;
  }

  predicate Begins(text: seq<byte>, cp: nat) {
    IsCodePoint(cp) && Encode(cp) <= text
  }

  // ---- one text begins with one code point at most ----

  // The value of a sequence, by its lead byte and the bytes that follow.
  function Value(lead: nat, tails: seq<byte>): nat
  {
    if tails == [] then lead else Value(lead, tails[..|tails| - 1]) * 64 + tails[|tails| - 1] % 64
  }

  lemma ValueOne(lead: nat, a: byte)
    ensures Value(lead, [a]) == lead * 64 + a % 64
  {
    assert [a][..0] == [];
  }

  lemma ValueTwo(lead: nat, a: byte, b: byte)
    ensures Value(lead, [a, b]) == (lead * 64 + a % 64) * 64 + b % 64
  {
    assert [a, b][..1] == [a];
    ValueOne(lead, a);
  }

  lemma ValueThree(lead: nat, a: byte, b: byte, c: byte)
    ensures Value(lead, [a, b, c]) == ((lead * 64 + a % 64) * 64 + b % 64) * 64 + c % 64
  {
    assert [a, b, c][..2] == [a, b];
    ValueTwo(lead, a, b);
  }

  function Need(b: byte): nat {
    if b < 0x80 then 1 else if b < 0xC2 then 0 else if b < 0xE0 then 2 else if b < 0xF0 then 3 else if b < 0xF5 then 4 else 0
  }

  // The bits of the lead byte that belong to the value.
  function Lead(b: byte): nat {
    if b < 0x80 then b else if b < 0xE0 then b % 32 else if b < 0xF0 then b % 16 else b % 8
  }

  predicate IsTail(b: byte) {
    0x80 <= b < 0xC0
  }

  // The decoder's tests on the bytes and on the value.
  predicate Accepts(s: seq<byte>) {
    && s != [] && Need(s[0]) == |s| && (forall i | 1 <= i < |s| :: IsTail(s[i]))
    && var cp := Value(Lead(s[0]), s[1..]);
       !(|s| == 3 && cp < 0x800) && !(|s| == 4 && cp < 0x10000) && !(0xD800 <= cp <= 0xDFFF)
  }

  // Taking a value apart, and putting it together again.
  lemma Digits(x: nat)
    ensures x / 64 * 64 + x % 64 == x && Tail(x) % 64 == x % 64 && IsTail(Tail(x))
  {
  }

  lemma DigitsOf(q: nat, a: byte)
    ensures (q * 64 + a % 64) / 64 == q && (q * 64 + a % 64) % 64 == a % 64
    ensures IsTail(a) ==> Tail(q * 64 + a % 64) == a
  {
  }

  // An encoding is accepted, with its own value ...
  lemma EncodingAccepted(cp: nat)
    requires IsCodePoint(cp)
    ensures var s := Encode(cp); Accepts(s) && Value(Lead(s[0]), s[1..]) == cp
  {
    hide Tail, IsTail, Value, Accepts, Lead;
    if cp < 0x80 {
      OneAccepted(cp);
    } else if cp < 0x800 {
      TwoAccepted(cp, cp / 64);
    } else if cp < 0x10000 {
      ThreeAccepted(cp, cp / 64, cp / 64 / 64);
    } else {
      FourAccepted(cp, cp / 64, cp / 64 / 64, cp / 64 / 64 / 64);
    }
  }

  lemma OneAccepted(cp: nat)
    requires cp < 0x80
    ensures Accepts([cp]) && Value(Lead(cp), [cp][1..]) == cp
  {
    assert [cp][1..] == [];
  }

  lemma TwoAccepted(cp: nat, q: nat)
    requires 0x80 <= cp < 0x800 && q == cp / 64
    ensures var s := [0xC0 + q, Tail(cp)]; Accepts(s) && Value(Lead(s[0]), s[1..]) == cp
  {
    hide Value, Tail;
    var s: seq<byte> := [0xC0 + q, Tail(cp)];
    Digits(cp);
    ValueOne(q, Tail(cp));
    assert s[1..] == [Tail(cp)] && Lead(s[0]) == q;
  }

  lemma ThreeAccepted(cp: nat, q: nat, r: nat)
    requires 0x800 <= cp < 0x10000 && IsCodePoint(cp) && q == cp / 64 && r == q / 64
    ensures var s := [0xE0 + r, Tail(q), Tail(cp)]; Accepts(s) && Value(Lead(s[0]), s[1..]) == cp
  {
    hide Value, Tail;
    var s: seq<byte> := [0xE0 + r, Tail(q), Tail(cp)];
    Digits(cp);
    Digits(q);
    ValueTwo(r, Tail(q), Tail(cp));
    assert s[1..] == [Tail(q), Tail(cp)] && Lead(s[0]) == r;
  }

  lemma FourAccepted(cp: nat, q: nat, r: nat, t: nat)
    requires 0x10000 <= cp < LIMIT && q == cp / 64 && r == q / 64 && t == r / 64
    ensures var s := [0xF0 + t, Tail(r), Tail(q), Tail(cp)]; Accepts(s) && Value(Lead(s[0]), s[1..]) == cp
  {
    hide Value, Tail;
    var s: seq<byte> := [0xF0 + t, Tail(r), Tail(q), Tail(cp)];
    Digits(cp);
    Digits(q);
    Digits(r);
    ValueThree(t, Tail(r), Tail(q), Tail(cp));
    assert s[1..] == [Tail(r), Tail(q), Tail(cp)] && Lead(s[0]) == t;
  }

  // ... and what is accepted is the encoding of its value.
  lemma AcceptedEncodes(s: seq<byte>)
    requires Accepts(s)
    ensures var cp := Value(Lead(s[0]), s[1..]); IsCodePoint(cp) && Encode(cp) == s
  {
    hide Tail, Value, Encode, Lead;
    if |s| == 1 {
      assert s == [s[0]];
      OneEncodes(s[0]);
    } else if |s| == 2 {
      assert s == [s[0], s[1]];
      TwoEncodes(s[0], s[1]);
    } else if |s| == 3 {
      assert s == [s[0], s[1], s[2]];
      ThreeEncodes(s[0], s[1], s[2]);
    } else {
      assert s == [s[0], s[1], s[2], s[3]];
      FourEncodes(s[0], s[1], s[2], s[3]);
    }
  }

  lemma OneEncodes(a: byte)
    requires a < 0x80
    ensures Value(Lead(a), [a][1..]) == a && Encode(a) == [a]
  {
    assert [a][1..] == [];
  }

  lemma TwoEncodes(a: byte, b: byte)
    requires 0xC2 <= a < 0xE0 && IsTail(b)
    ensures var cp := Value(Lead(a), [a, b][1..]); 0x80 <= cp < 0x800 && Encode(cp) == [a, b]
  {
    hide Value, Tail;
    assert [a, b][1..] == [b];
    ValueOne(Lead(a), b);
    DigitsOf(Lead(a), b);
  }

  lemma ThreeEncodes(a: byte, b: byte, c: byte)
    requires 0xE0 <= a < 0xF0 && IsTail(b) && IsTail(c) && Value(Lead(a), [a, b, c][1..]) >= 0x800
    ensures var cp := Value(Lead(a), [a, b, c][1..]); cp < 0x10000 && Encode(cp) == [a, b, c]
  {
    hide Value, Tail;
    assert [a, b, c][1..] == [b, c];
    ValueTwo(Lead(a), b, c);
    DigitsOf(Lead(a), b);
    DigitsOf(Lead(a) * 64 + b % 64, c);
  }

  lemma FourEncodes(a: byte, b: byte, c: byte, d: byte)
    requires 0xF0 <= a < 0xF5 && IsTail(b) && IsTail(c) && IsTail(d) && Value(Lead(a), [a, b, c, d][1..]) >= 0x10000
    ensures var cp := Value(Lead(a), [a, b, c, d][1..]); cp < LIMIT && Encode(cp) == [a, b, c, d]
  {
    hide Value, Tail;
    assert [a, b, c, d][1..] == [b, c, d];
    ValueThree(Lead(a), b, c, d);
    var q := Lead(a) * 64 + b % 64;
    var r := q * 64 + c % 64;
    DigitsOf(Lead(a), b);
    DigitsOf(q, c);
    DigitsOf(r, d);
    assert a == 0xF0 + Lead(a);
  }

  lemma BeginsIsAccepted(text: seq<byte>, cp: nat)
    requires Begins(text, cp)
    ensures text != [] && Need(text[0]) == |Encode(cp)| <= |text| && Accepts(text[..Need(text[0])])
    ensures Value(Lead(text[0]), text[1..Need(text[0])]) == cp
  {
    EncodingAccepted(cp);
    var s := Encode(cp);
    assert s == text[..|s|] && s[1..] == text[1..|s|];
  }

  // A text begins with one code point at most.
  lemma BeginsOnce(text: seq<byte>, a: nat, b: nat)
    requires Begins(text, a) && Begins(text, b)
    ensures a == b
  {
    BeginsIsAccepted(text, a);
    BeginsIsAccepted(text, b);
  }

  // The decoder: the length consumed and the code point, or 0.
  method Decode(text: seq<byte>) returns (n: nat, cp: nat)
    ensures n > 0 ==> Begins(text, cp) && n == |Encode(cp)|
    ensures n == 0 ==> forall c: nat :: !Begins(text, c)
  {
    hide Encode, Begins;
    cp := 0;
    if |text| == 0 {
      NeverBegins(text);
      return 0, 0;
    }
    if text[0] < 0x80 {
      OneEncodes(text[0]);
      BeginsWith(text, text[0], 1);
      return 1, text[0];
    }
    var need: nat;
    if text[0] < 0xC2 {
      NeverBegins(text);
      return 0, 0;
    } else if text[0] < 0xE0 {
      need, cp := 2, text[0] % 32;
    } else if text[0] < 0xF0 {
      need, cp := 3, text[0] % 16;
    } else if text[0] < 0xF5 {
      need, cp := 4, text[0] % 8;
    } else {
      NeverBegins(text);
      return 0, 0;
    }
    if |text| < need {
      NeverBegins(text);
      return 0, 0;
    }
    assert cp == Lead(text[0]);
    hide Lead, Value, Accepts, IsTail;
    var tails;
    tails, cp := DecodeTails(text, need, cp);
    if !tails {
      NoTail(text, need);
      NeverBegins(text);
      return 0, 0;
    }
    TestsAre(text, need, cp);
    if (need == 3 && cp < 0x800) || (need == 4 && cp < 0x10000) {
      NeverBegins(text);
      return 0, 0;
    }
    if 0xD800 <= cp <= 0xDFFF {
      NeverBegins(text);
      return 0, 0;
    }
    AcceptedEncodes(text[..need]);
    BeginsWith(text, cp, need);
    n := need;
  }

  // What is left to test once all bytes that follow are there.
  lemma TestsAre(text: seq<byte>, need: nat, cp: nat)
    requires 1 <= need <= |text| && need == Need(text[0]) && (forall j | 1 <= j < need :: IsTail(text[j]))
    requires cp == Value(Lead(text[0]), text[1..need])
    ensures var s := text[..need]; s[0] == text[0] && Value(Lead(s[0]), s[1..]) == cp
    ensures Accepts(text[..need]) <==>
      !(need == 3 && cp < 0x800) && !(need == 4 && cp < 0x10000) && !(0xD800 <= cp <= 0xDFFF)
  {
    hide IsTail, Value, Lead;
    assert text[..need][1..] == text[1..need];
  }

  lemma NoTail(text: seq<byte>, need: nat)
    requires 1 <= need <= |text| && exists j :: 1 <= j < need && !IsTail(text[j])
    ensures !Accepts(text[..need])
  {
    hide IsTail, Value, Lead;
    var j :| 1 <= j < need && !IsTail(text[j]);
    assert !IsTail(text[..need][j]);
  }

  // The loop over the bytes that follow the first.
  method DecodeTails(text: seq<byte>, need: nat, lead: nat) returns (tails: bool, cp: nat)
    requires 1 <= need <= |text|
    ensures tails <==> forall j | 1 <= j < need :: IsTail(text[j])
    ensures tails ==> cp == Value(lead, text[1..need])
  {
    cp := lead;
    assert text[1..1] == [];
    for i := 1 to need
      invariant forall j | 1 <= j < i :: IsTail(text[j])
      invariant cp == Value(lead, text[1..i])
    {
      if !IsTail(text[i]) {
        return false, 0;
      }
      assert text[1..i + 1][..i - 1] == text[1..i];
      cp := cp * 64 + text[i] % 64;
    }
    tails := true;
  }

  lemma BeginsWith(text: seq<byte>, cp: nat, n: nat)
    requires n <= |text| && IsCodePoint(cp) && Encode(cp) == text[..n]
    ensures Begins(text, cp) && |Encode(cp)| == n
  {
  }

  lemma NeverBegins(text: seq<byte>)
    requires text == [] || (Need(text[0]) == 0 || Need(text[0]) > |text| || !Accepts(text[..Need(text[0])]))
    ensures forall c: nat :: !Begins(text, c)
  {
    forall c: nat
      ensures !Begins(text, c)
    {
      if Begins(text, c) {
        BeginsIsAccepted(text, c);
      }
    }
  }

  // Every scalar value comes back from its encoding, whatever follows.
  method RoundTrip(cp: nat, rest: seq<byte>) returns (n: nat, got: nat)
    requires IsScalarValue(cp)
    ensures n == |Encode(cp)| && got == cp
  {
    n, got := Decode(Encode(cp) + rest);
    assert Begins(Encode(cp) + rest, cp);
    if n > 0 {
      BeginsOnce(Encode(cp) + rest, cp, got);
    }
  }

  predicate CodePoints(cps: seq<nat>) {
    forall i | 0 <= i < |cps| :: IsCodePoint(cps[i])
  }

  // A whole text of code points.
  function EncodeAll(cps: seq<nat>): seq<byte>
    requires CodePoints(cps)
  {
    if cps == [] then []
    else
      assert IsCodePoint(cps[0]);
      Encode(cps[0]) + EncodeAll(cps[1..])
  }
}
