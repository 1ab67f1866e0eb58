// Decoding of keys in src/yc-term.c: what a terminal sends is cut into escape
// sequences and plain bytes wherever the reads may have split it.
module TerminalKeys {
  import opened Basics

  const MAX_PENDING := 32
  const ESC: byte := 27
  const TILDE: byte := 126
  const WORD := 0x1_0000_0000

  datatype Key =
    | Enter | Backspace | Escape
    | Up | Down | Right | Left | Home | End | PageUp | PageDown
    | Char(ch: nat, ctrl: bool)

  // ---- the grammar ----

  predicate IsDigit(b: byte) {
    48 <= b <= 57
  }

  // '[' or 'O'
  predicate Introduces(b: byte) {
    b == 91 || b == 79
  }

  // What may still become a longer sequence: nothing, ESC, or ESC, an
  // introducer and digits.
  predicate Incomplete(p: seq<byte>) {
    || p == []
    || (&& p[0] == ESC && |p| <= MAX_PENDING
        && (|p| > 1 ==> Introduces(p[1]))
        && forall i | 2 <= i < |p| :: IsDigit(p[i]))
  }

  // A plain byte, or a sequence with its last byte.
  predicate Complete(u: seq<byte>) {
    || (|u| == 1 && u[0] != ESC)
    || (3 <= |u| <= MAX_PENDING && Incomplete(u[..|u| - 1]) && !IsDigit(u[|u| - 1]))
  }

  // The first unit of a text, and what follows it.  An ESC stands alone once it
  // is known not to introduce anything; a sequence that has filled the space for
  // pending bytes is given up for the next byte.
  predicate Taken(u: seq<byte>, after: seq<byte>) {
    || Complete(u)
    || (after != [] && u == [ESC] && !Introduces(after[0]))
    || (after != [] && |u| == MAX_PENDING && Incomplete(u))
  }

  // The text is these units, and a rest that waits for more.
  ghost predicate Reads(text: seq<byte>, units: seq<seq<byte>>, rest: seq<byte>)
    decreases |units|
  {
    if units == [] then text == rest && Incomplete(rest)
    else
      && units[0] <= text && Taken(units[0], text[|units[0]|..])
      && Reads(text[|units[0]|..], units[1..], rest)
  }

  // ---- what the units mean ----

  // An unsigned decimal number, which wraps around.
  function Number(digits: seq<byte>): nat
    requires forall i | 0 <= i < |digits| :: IsDigit(digits[i])
  {
    if digits == [] then 0
    else
      var last: int := digits[|digits| - 1];
      (Number(digits[..|digits| - 1]) * 10 + last - 48) % WORD
  }

  function PlainKey(c: byte): Key {
    if c == 13 || c == 10 then Enter
    else if c == 127 || c == 8 then Backspace
    else if c < 32 then Char(c + 97 - 1, true)
    else Char(c, false)
  }

  function LetterKey(c: byte): Option<Key> {
    match c
    case 65 => Some(Up)
    case 66 => Some(Down)
    case 67 => Some(Right)
    case 68 => Some(Left)
    case 72 => Some(Home)
    case 70 => Some(End)
    case _ => None
  }

  function NumberKey(n: nat): Option<Key> {
    match n
    case 1 => Some(Home)
    case 7 => Some(Home)
    case 4 => Some(End)
    case 8 => Some(End)
    case 5 => Some(PageUp)
    case 6 => Some(PageDown)
    case _ => None
  }

  // No key for what is not handled.
  function KeyOf(u: seq<byte>): Option<Key>
    requires Complete(u) || Incomplete(u)
  {
    if |u| == 1 then Some(if u[0] == ESC then Escape else PlainKey(u[0]))
    else if Incomplete(u) then None
    else if |u| == 3 then LetterKey(u[2])
    else if u[|u| - 1] == TILDE then NumberKey(Number(u[2..|u| - 1]))
    else None
  }

  ghost predicate Units(units: seq<seq<byte>>) {
    forall i | 0 <= i < |units| :: units[i] != [] && (Complete(units[i]) || Incomplete(units[i]))
  }

  ghost function KeysOf(units: seq<seq<byte>>): (keys: seq<Key>)
    requires Units(units)
    ensures |keys| <= |units|
  {
    if units == [] then []
    else
      var k := KeyOf(units[0]);
      (if k.Some? then [k.value] else []) + KeysOf(units[1..])
  }

  lemma {:induction false} ReadsUnits(text: seq<byte>, units: seq<seq<byte>>, rest: seq<byte>)
    requires Reads(text, units, rest)
    ensures Units(units)
    decreases |units|
  {
    if units != [] {
      ReadsUnits(text[|units[0]|..], units[1..], rest);
      forall i | 0 <= i < |units|
        ensures units[i] != [] && (Complete(units[i]) || Incomplete(units[i]))
      {
        if i > 0 {
          assert units[i] == units[1..][i - 1];
        }
      }
    }
  }

  lemma {:induction false} KeysConcat(a: seq<seq<byte>>, b: seq<seq<byte>>)
    requires Units(a) && Units(b)
    ensures Units(a + b) && KeysOf(a + b) == KeysOf(a) + KeysOf(b)
  {
    hide Complete, Incomplete, KeyOf;
    UnitsConcat(a, b);
    hide Units;
    if a == [] {
      NoKeys();
      assert a + b == b && [] + KeysOf(b) == KeysOf(b);
    } else {
      hide KeysOf;
      UnitsTail(a);
      KeysConcat(a[1..], b);
      assert (a + b)[1..] == a[1..] + b && (a + b)[0] == a[0];
      KeysFirst(a);
      KeysFirst(a + b);
      Reassociate(KeyIn(a[0]), KeysOf(a[1..]), KeysOf(b));
    }
  }

  lemma NoKeys()
    ensures Units([]) && KeysOf([]) == []
  {
  }

  ghost function KeyIn(u: seq<byte>): seq<Key>
    requires Complete(u) || Incomplete(u)
  {
    if KeyOf(u).Some? then [KeyOf(u).value] else []
  }

  lemma KeysFirst(units: seq<seq<byte>>)
    requires Units(units) && units != []
    ensures (Complete(units[0]) || Incomplete(units[0])) && Units(units[1..])
    ensures KeysOf(units) == KeyIn(units[0]) + KeysOf(units[1..])
  {
    hide Complete, Incomplete, KeyOf;
    UnitsTail(units);
  }

  lemma Reassociate(a: seq<Key>, b: seq<Key>, c: seq<Key>)
    ensures a + (b + c) == a + b + c
  {
  }

  lemma UnitsConcat(a: seq<seq<byte>>, b: seq<seq<byte>>)
    requires Units(a) && Units(b)
    ensures Units(a + b)
  {
    hide Complete, Incomplete;
  }

  lemma UnitsTail(a: seq<seq<byte>>)
    requires Units(a) && a != []
    ensures Units(a[1..])
  {
    hide Complete, Incomplete;
  }

  // ---- a text reads in one way only ----

  lemma NotBoth(u: seq<byte>, v: seq<byte>, text: seq<byte>)
    requires u <= text && v <= text && |u| < |v|
    requires Taken(u, text[|u|..])
    ensures !Taken(v, text[|v|..]) && !Incomplete(v)
  {
    var n := |v| - 1;
    assert forall i | 0 <= i < |u| :: u[i] == text[i] == v[i];
    assert text[|u|..][0] == text[|u|] == v[|u|];
    assert v[..n][0] == v[0];
    if u[0] == ESC {
      if |u| == 1 {
        assert !Introduces(v[1]);
        if n > 1 {
          assert v[..n][1] == v[1];
        }
      } else if Complete(u) {
        var m := |u| - 1;
        assert !IsDigit(v[m]);
        assert n > m ==> v[..n][m] == v[m];
      }
    }
  }

  lemma {:induction false} OneReading(
    text: seq<byte>, a: seq<seq<byte>>, r: seq<byte>, b: seq<seq<byte>>, t: seq<byte>)
    requires Reads(text, a, r) && Reads(text, b, t)
    ensures a == b && r == t
    decreases |a|
  {
    if a == [] && b == [] {
    } else if a == [] {
      NothingToTake(text, b[0]);
    } else if b == [] {
      NothingToTake(text, a[0]);
    } else {
      if |a[0]| < |b[0]| {
        NotBoth(a[0], b[0], text);
      } else if |b[0]| < |a[0]| {
        NotBoth(b[0], a[0], text);
      }
      assert a[0] == text[..|a[0]|] == b[0];
      OneReading(text[|a[0]|..], a[1..], r, b[1..], t);
    }
  }

  // What is incomplete has no first unit.
  lemma NothingToTake(text: seq<byte>, u: seq<byte>)
    requires Incomplete(text)
    ensures !(u <= text && Taken(u, text[|u|..]))
  {
    if u <= text && |u| < |text| && Taken(u, text[|u|..]) {
      NotBoth(u, text, text);
    }
  }

  // A text that goes on is read on from where it stood.
  lemma {:induction false} ReadOn(
    text: seq<byte>, a: seq<seq<byte>>, r: seq<byte>, more: seq<byte>, b: seq<seq<byte>>, t: seq<byte>)
    requires Reads(text, a, r) && Reads(r + more, b, t)
    ensures Reads(text + more, a + b, t)
    decreases |a|
  {
    if a == [] {
      assert a + b == b;
    } else {
      var u := a[0];
      ReadOn(text[|u|..], a[1..], r, more, b, t);
      assert (text + more)[|u|..] == text[|u|..] + more;
      assert (a + b)[1..] == a[1..] + b;
    }
  }

  // ---- the machine ----

  ghost function Concat(chunks: seq<seq<byte>>): seq<byte> {
    if chunks == [] then [] else chunks[0] + Concat(chunks[1..])
  }

  class KeyInput {
    const pending: array<byte>
    var nPending: nat
    ghost var told: seq<Key>         // the keys the callback was given
    ghost var input: seq<byte>       // all that ever arrived
    ghost var units: seq<seq<byte>>

    ghost predicate Valid()
      reads this, pending
    {
      && pending.Length == MAX_PENDING && nPending <= MAX_PENDING
      && Reads(input, units, pending[..nPending])
      && Units(units) && told == KeysOf(units)
    }

    constructor ()
      ensures Valid() && fresh(pending) && input == [] && told == []
    {
      pending := new byte[MAX_PENDING];
      nPending := 0;
      told, input, units := [], [], [];
    }

    // decode_one: takes one unit from the front of the first n bytes, if there is one.
    method DecodeOne(n: nat) returns (used: nat)
      requires n <= pending.Length == MAX_PENDING
      modifies this`told
      ensures used == 0 ==> Incomplete(pending[..n]) && told == old(told)
      ensures used > 0 ==>
        && used <= n && var u := pending[..used];
           && Taken(u, pending[used..n]) && (Complete(u) || Incomplete(u))
           && told == old(told) + if KeyOf(u).Some? then [KeyOf(u).value] else []
    {
      if n == 0 {
        return 0;
      }
      if pending[0] != ESC {
        var c := pending[0];
        if c == 13 || c == 10 {
          told := told + [Enter];
        } else if c == 127 || c == 8 {
          told := told + [Backspace];
        } else if c < 32 {
          told := told + [Char(c + 97 - 1, true)];
        } else {
          told := told + [Char(c, false)];
        }
        return 1;
      }
      if n == 1 {
        return 0;
      }
      if pending[1] != 91 && pending[1] != 79 {
        told := told + [Escape];
        return 1;
      }
      if n == 2 {
        return 0;
      }
      if !IsDigit(pending[2]) {
        Whole(pending[..3]);
        if LetterKey(pending[2]).Some? {
          told := told + [LetterKey(pending[2]).value];
        }
        return 3;
      }
      var i := 2;
      var value := 0;
      while i < n && IsDigit(pending[i])
        invariant 2 <= i <= n && told == old(told)
        invariant i == 2 ==> IsDigit(pending[2])
        invariant forall j | 2 <= j < i :: IsDigit(pending[j])
        invariant value == Number(pending[2..i])
      {
        assert pending[2..i + 1][..i - 2] == pending[2..i];
        value := (value * 10 + pending[i] - 48) % WORD;
        i := i + 1;
      }
      if i == n {
        return 0;
      }
      used := i + 1;
      Whole(pending[..used]);
      assert pending[..used][2..i] == pending[2..i];
      if pending[i] == TILDE && NumberKey(value).Some? {
        told := told + [NumberKey(value).value];
      }
    }

    // yc_term_feed_input: however the bytes come, all that has come is read as it
    // would be read at once.
    method FeedInput(data: seq<byte>)
      requires Valid()
      modifies this, pending
      ensures Valid() && input == old(input) + data
    {
      for k := 0 to |data|
        invariant Valid() && input == old(input) + data[..k]
      {
        FeedByte(data[k]);
        assert data[..k + 1] == data[..k] + [data[k]];
      }
      assert data[..|data|] == data;
    }

    method FeedByte(b: byte)
      requires Valid()
      modifies this, pending
      ensures Valid() && input == old(input) + [b]
    {
      hide Complete, Incomplete, Reads, KeysOf, Units;
      ghost var held := pending[..nPending];
      RestIncomplete(input, units, held);
      ghost var full := nPending == MAX_PENDING;
      if nPending == MAX_PENDING {
        nPending := 0;
      }
      pending[nPending] := b;
      nPending := nPending + 1;
      assert pending[..nPending] == if full then [b] else held + [b];
      ghost var given := Drain();
      if full {
        GivenUp(held, b, given, pending[..nPending]);
        given := [held] + given;
      }
      KeysConcat(units, given);
      ReadOn(input, units, held, [b], given, pending[..nPending]);
      units := units + given;
      input := input + [b];
    }

    // Takes units from the front until what is left waits for more.
    method Drain() returns (ghost given: seq<seq<byte>>)
      requires pending.Length == MAX_PENDING && 0 < nPending <= MAX_PENDING
      modifies this`told, this`nPending, pending
      ensures nPending <= MAX_PENDING
      ensures Reads(old(pending[..nPending]), given, pending[..nPending])
      ensures Units(given) && told == old(told) + KeysOf(given)
    {
      hide Complete, Incomplete, Taken, ReadSoFar, KeyOf, KeysOf, Units, Reads;
      given := [];
      ghost var text := pending[..nPending];
      NothingYet(text);
      while true
        invariant 0 < nPending <= MAX_PENDING
        invariant Units(given) && told == old(told) + KeysOf(given)
        invariant ReadSoFar(text, given, pending[..nPending])
        decreases nPending
      {
        ghost var left := pending[..nPending];
        var used := DecodeOne(nPending);
        if used == 0 {
          break;
        }
        ghost var u := left[..used];
        assert left[used..] == pending[used..nPending] && u == pending[..used];
        TookOne(text, given, left, u);
        OneUnit(u);
        KeysConcat(given, [u]);
        given := given + [u];
        forall i | 0 <= i < nPending - used {
          pending[i] := pending[i + used];
        }
        nPending := nPending - used;
        assert pending[..nPending] == left[used..];
        if nPending == 0 {
          NothingWaits();
          break;
        }
      }
      SoFarIsAll(text, given, pending[..nPending]);
    }
  }

  // The units taken so far, and what is left of the text, complete or not.
  ghost predicate ReadSoFar(text: seq<byte>, units: seq<seq<byte>>, left: seq<byte>)
    decreases |units|
  {
    if units == [] then text == left
    else
      && units[0] <= text && Taken(units[0], text[|units[0]|..])
      && ReadSoFar(text[|units[0]|..], units[1..], left)
  }

  lemma NothingYet(text: seq<byte>)
    ensures ReadSoFar(text, [], text) && Units([]) && KeysOf([]) == []
  {
  }

  lemma OneUnit(u: seq<byte>)
    requires u != [] && (Complete(u) || Incomplete(u))
    ensures Units([u]) && KeysOf([u]) == if KeyOf(u).Some? then [KeyOf(u).value] else []
  {
    assert [u][1..] == [];
  }

  // What has filled the space is given up for the next byte.
  lemma GivenUp(held: seq<byte>, b: byte, given: seq<seq<byte>>, rest: seq<byte>)
    requires |held| == MAX_PENDING && Incomplete(held) && Reads([b], given, rest) && Units(given)
    ensures Reads(held + [b], [held] + given, rest)
    ensures Units([held] + given) && KeysOf([held] + given) == KeysOf(given)
  {
    OneUnit(held);
    KeysConcat([held], given);
    assert (held + [b])[|held|..] == [b] && ([held] + given)[1..] == given;
  }

  lemma NothingWaits()
    ensures Incomplete([])
  {
  }

  lemma {:induction false} TookOne(text: seq<byte>, units: seq<seq<byte>>, left: seq<byte>, u: seq<byte>)
    requires ReadSoFar(text, units, left) && u <= left && Taken(u, left[|u|..])
    ensures ReadSoFar(text, units + [u], left[|u|..])
    decreases |units|
  {
    if units == [] {
      assert (units + [u])[1..] == [];
    } else {
      TookOne(text[|units[0]|..], units[1..], left, u);
      assert (units + [u])[1..] == units[1..] + [u];
    }
  }

  lemma {:induction false} SoFarIsAll(text: seq<byte>, units: seq<seq<byte>>, left: seq<byte>)
    requires ReadSoFar(text, units, left) && Incomplete(left)
    ensures Reads(text, units, left)
    decreases |units|
  {
    if units != [] {
      SoFarIsAll(text[|units[0]|..], units[1..], left);
    }
  }

  lemma {:induction false} RestIncomplete(text: seq<byte>, units: seq<seq<byte>>, rest: seq<byte>)
    requires Reads(text, units, rest)
    ensures Incomplete(rest)
    decreases |units|
  {
    if units != [] {
      RestIncomplete(text[|units[0]|..], units[1..], rest);
    }
  }

  // A sequence, digits and all, up to a byte that ends it.
  lemma Whole(u: seq<byte>)
    requires 3 <= |u| <= MAX_PENDING && u[0] == ESC && Introduces(u[1]) && !IsDigit(u[|u| - 1])
    requires forall i | 2 <= i < |u| - 1 :: IsDigit(u[i])
    ensures Complete(u) && !Incomplete(u)
  {
    var p := u[..|u| - 1];
    assert forall i | 0 <= i < |p| :: p[i] == u[i];
  }

  // ---- whole runs ----

  // The keys told do not depend on how the input was cut into reads.
  lemma OnlyTheBytesCount(a: KeyInput, b: KeyInput)
    requires a.Valid() && b.Valid() && a.input == b.input
    ensures a.told == b.told && a.pending[..a.nPending] == b.pending[..b.nPending]
  {
    OneReading(a.input, a.units, a.pending[..a.nPending], b.units, b.pending[..b.nPending]);
  }

  method FeedAll(chunks: seq<seq<byte>>) returns (keys: KeyInput)
    ensures fresh(keys) && keys.Valid() && keys.input == Concat(chunks)
  {
    hide Reads, Units, KeysOf;
    keys := new KeyInput();
    for k := 0 to |chunks|
      invariant fresh(keys) && fresh(keys.pending) && keys.Valid() && keys.input + Concat(chunks[k..]) == Concat(chunks)
    {
      ghost var was := keys.input;
      keys.FeedInput(chunks[k]);
      assert chunks[k..][1..] == chunks[k + 1..];
      assert was + (chunks[k] + Concat(chunks[k + 1..])) == (was + chunks[k]) + Concat(chunks[k + 1..]);
    }
  }

  // ---- spelling keys ----

  // A key that can be typed.
  predicate Typeable(k: Key) {
    match k
    case Char(ch, ctrl) =>
      if ctrl then 96 <= ch < 128 && ch - 96 !in {8, 10, 13, 27}
      else 32 <= ch < 256 && ch != 127
    case _ => true
  }

  function Spell(k: Key): (s: seq<byte>)
    requires Typeable(k)
    ensures s != []
  {
    match k
    case Enter => [13]
    case Backspace => [127]
    case Escape => [ESC]
    case Up => [ESC, 91, 65]
    case Down => [ESC, 91, 66]
    case Right => [ESC, 91, 67]
    case Left => [ESC, 91, 68]
    case Home => [ESC, 91, 72]
    case End => [ESC, 91, 70]
    case PageUp => [ESC, 91, 53, TILDE]
    case PageDown => [ESC, 91, 54, TILDE]
    case Char(ch, ctrl) => [if ctrl then ch - 96 else ch]
  }

  predicate AllTypeable(keys: seq<Key>) {
    forall i | 0 <= i < |keys| :: Typeable(keys[i])
  }

  ghost function SpellAll(keys: seq<Key>): seq<byte>
    requires AllTypeable(keys)
  {
    if keys == [] then [] else Spell(keys[0]) + SpellAll(keys[1..])
  }

  // No escape key comes last, or before a '[' or 'O' that is typed.
  predicate Separable(keys: seq<Key>) {
    forall i | 0 <= i < |keys| && keys[i].Escape? :: i + 1 < |keys| && keys[i + 1] !in {Char(91, false), Char(79, false)}
  }

  lemma SpelledComplete(k: Key)
    requires Typeable(k)
    ensures var u := Spell(k); if k.Escape? then u == [ESC] else Complete(u) && KeyOf(u) == Some(k)
  {
    var u := Spell(k);
    if |u| == 4 {
      assert u[..3][0] == u[0] && u[..3][1] == u[1] && u[..3][2] == u[2];
      var ds := u[2..3];
      assert ds == [u[2]] && ds[..0] == [];
      assert Number([]) == 0;
      assert Number(ds) == u[2] - 48;
    } else if |u| == 3 {
      assert u[..2][0] == u[0] && u[..2][1] == u[1];
    }
  }

  // No key is spelled in more bytes than were read for it.
  lemma NoShorter(u: seq<byte>)
    requires u != [] && (Complete(u) || Incomplete(u))
    ensures KeyOf(u).Some? ==> Typeable(KeyOf(u).value) && |Spell(KeyOf(u).value)| <= |u|
  {
  }

  lemma {:induction false} NoLonger(text: seq<byte>, units: seq<seq<byte>>, rest: seq<byte>)
    requires Reads(text, units, rest)
    ensures Units(units) && AllTypeable(KeysOf(units)) && |SpellAll(KeysOf(units))| <= |text|
    decreases |units|
  {
    hide Complete, Incomplete, KeyOf, Spell, Typeable;
    ReadsUnits(text, units, rest);
    if units != [] {
      var u, keys := units[0], KeysOf(units);
      NoLonger(text[|u|..], units[1..], rest);
      NoShorter(u);
      if KeyOf(u).Some? {
        assert keys[1..] == KeysOf(units[1..]);
      } else {
        assert keys == KeysOf(units[1..]);
      }
    }
  }

  lemma EscapeAlone(keys: seq<Key>)
    requires AllTypeable(keys) && keys != [] && Separable(keys[1..])
    requires Taken(Spell(keys[0]), SpellAll(keys[1..]))
    ensures Separable(keys)
  {
    forall i | 0 <= i < |keys| && keys[i].Escape?
      ensures i + 1 < |keys| && keys[i + 1] !in {Char(91, false), Char(79, false)}
    {
      if i > 0 {
        assert keys[1..][i - 1].Escape?;
      } else if |keys| > 1 {
        assert SpellAll(keys[1..])[0] == Spell(keys[1])[0];
      }
    }
  }

  // If just the keys spelled were told, each was read from its own spelling.
  lemma {:induction false} OwnSpelling(keys: seq<Key>, units: seq<seq<byte>>, rest: seq<byte>)
    requires AllTypeable(keys) && Reads(SpellAll(keys), units, rest)
    requires Units(units) && KeysOf(units) == keys
    ensures Separable(keys)
    decreases |units|
  {
    if units != [] {
      hide Complete, Incomplete, KeyOf, Spell, Typeable;
      var u, text := units[0], SpellAll(keys);
      NoLonger(text[|u|..], units[1..], rest);
      NoShorter(u);
      assert [] + KeysOf(units[1..]) == KeysOf(units[1..]);
      assert KeyOf(u).Some?;
      assert keys[1..] == KeysOf(units[1..]);
      assert u == text[..|u|] == Spell(keys[0]);
      assert text[|u|..] == SpellAll(keys[1..]);
      OwnSpelling(keys[1..], units[1..], rest);
      EscapeAlone(keys);
    }
  }

  ghost function Spelled(keys: seq<Key>): (units: seq<seq<byte>>)
    requires AllTypeable(keys)
    ensures |units| == |keys|
  {
    seq(|keys|, i requires 0 <= i < |keys| => Spell(keys[i]))
  }

  lemma {:induction false} SpelledReads(keys: seq<Key>)
    requires AllTypeable(keys) && Separable(keys)
    ensures var units := Spelled(keys); Reads(SpellAll(keys), units, []) && Units(units) && KeysOf(units) == keys
  {
    if keys != [] {
      var u, after := Spell(keys[0]), SpellAll(keys[1..]);
      SpelledReads(keys[1..]);
      SpelledComplete(keys[0]);
      assert Spelled(keys)[1..] == Spelled(keys[1..]);
      assert (u + after)[|u|..] == after;
    }
  }

  // Keys typed one after another are told as they were typed, exactly when no
  // escape key can be taken for the beginning of something else.
  lemma ToldAsTyped(machine: KeyInput, keys: seq<Key>)
    requires machine.Valid() && AllTypeable(keys) && machine.input == SpellAll(keys)
    ensures machine.told == keys <==> Separable(keys)
    ensures Separable(keys) ==> machine.nPending == 0
  {
    var units, rest := machine.units, machine.pending[..machine.nPending];
    if Separable(keys) {
      SpelledReads(keys);
      OneReading(machine.input, units, rest, Spelled(keys), []);
    } else if machine.told == keys {
      OwnSpelling(keys, units, rest);
    }
  }

  // ---- every spelling ----

  function Decimal(digits: seq<byte>): nat
    requires forall i | 0 <= i < |digits| :: 48 <= digits[i] <= 57
  {
    if digits == [] then 0 else Decimal(digits[..|digits| - 1]) * 10 + (digits[|digits| - 1] as int - 48)
  }

  lemma {:induction false} NumberIsDecimal(digits: seq<byte>)
    requires forall i | 0 <= i < |digits| :: 48 <= digits[i] <= 57
    ensures Number(digits) == Decimal(digits) % 0x1_0000_0000
  {
    if digits != [] {
      var k := |digits| - 1;
      NumberIsDecimal(digits[..k]);
      Wraps(Decimal(digits[..k]), digits[k] as int - 48);
    }
  }

  lemma Wraps(n: nat, d: nat)
    ensures (n % 0x1_0000_0000 * 10 + d) % 0x1_0000_0000 == (n * 10 + d) % 0x1_0000_0000
  {
    var q, r := n / 0x1_0000_0000, n % 0x1_0000_0000;
    assert n * 10 + d == (r * 10 + d) + (q * 10) * 0x1_0000_0000;
    DropMultiple(r * 10 + d, q * 10);
  }

  lemma DropMultiple(x: nat, k: nat)
    ensures (x + k * 0x1_0000_0000) % 0x1_0000_0000 == x % 0x1_0000_0000
  {
  }

  // ESC, a bracket or O, and a letter.
  lemma LetterSpelling(machine: KeyInput, intro: byte, c: byte)
    requires machine.Valid() && (intro == 91 || intro == 79) && !(48 <= c <= 57) && machine.input == [27, intro, c]
    ensures machine.nPending == 0
    ensures machine.told ==
      if c == 65 then [Up] else if c == 66 then [Down] else if c == 67 then [Right] else if c == 68 then [Left]
      else if c == 72 then [Home] else if c == 70 then [End] else []
  {
    var s: seq<byte> := [27, intro, c];
    TakenAlone(machine, s);
  }

  // ESC, a bracket or O, a number, and a tilde or whatever ends it.
  lemma NumberSpelling(machine: KeyInput, intro: byte, digits: seq<byte>, c: byte)
    requires machine.Valid() && (intro == 91 || intro == 79) && !(48 <= c <= 57)
    requires 0 < |digits| <= 29 && forall i | 0 <= i < |digits| :: 48 <= digits[i] <= 57
    requires machine.input == [27, intro] + digits + [c]
    ensures machine.nPending == 0
    ensures machine.told ==
      var n := Decimal(digits) % 0x1_0000_0000;
      if c != 126 then [] else if n == 1 || n == 7 then [Home] else if n == 4 || n == 8 then [End]
      else if n == 5 then [PageUp] else if n == 6 then [PageDown] else []
  {
    hide Complete, Incomplete, Number, Decimal, KeyOf, KeysOf, Units, Reads;
    var s := machine.input;
    NumberParts(intro, digits, c);
    TakenAlone(machine, s);
    NumberIsDecimal(digits);
    KeyOfNumber(s, digits);
  }

  lemma NumberParts(intro: byte, digits: seq<byte>, c: byte)
    ensures var s := [27, intro] + digits + [c];
      && |s| == |digits| + 3 && s[0] == 27 && s[1] == intro && s[|s| - 1] == c && s[2..|s| - 1] == digits
      && forall i | 2 <= i < |s| - 1 :: s[i] == digits[i - 2]
  {
  }

  lemma KeyOfNumber(s: seq<byte>, digits: seq<byte>)
    requires |s| >= 4 && Complete(s) && !Incomplete(s) && s[2..|s| - 1] == digits && forall i | 0 <= i < |digits| :: IsDigit(digits[i])
    ensures KeyOf(s) == if s[|s| - 1] == 126 then NumberKey(Number(digits)) else None
  {
    hide Complete, Incomplete, Number;
  }

  lemma TakenAlone(machine: KeyInput, s: seq<byte>)
    requires machine.Valid() && machine.input == s && 3 <= |s| <= MAX_PENDING
    requires s[0] == ESC && Introduces(s[1]) && !IsDigit(s[|s| - 1]) && forall i | 2 <= i < |s| - 1 :: IsDigit(s[i])
    ensures machine.nPending == 0 && Complete(s) && !Incomplete(s)
    ensures machine.told == if KeyOf(s).Some? then [KeyOf(s).value] else []
  {
    Whole(s);
    assert Reads(s[|s|..], [], []) && [s][1..] == [];
    OneReading(s, machine.units, machine.pending[..machine.nPending], [s], []);
    hide Complete, Incomplete, KeyOf, KeysOf;
    OneUnit(s);
  }

  // ---- sequences that are not handled ----

  // A control sequence: an introducer, parameters and a final byte.
  predicate IsControlSequence(s: seq<byte>) {
    && |s| >= 3 && s[0] == ESC && Introduces(s[1])
    && (forall i | 2 <= i < |s| - 1 :: 0x20 <= s[i] < 0x40)
    && 0x40 <= s[|s| - 1] < 0x7F
  }

  predicate OnlyDigits(s: seq<byte>) {
    forall i | 2 <= i < |s| - 1 :: IsDigit(s[i])
  }

  // Where the parameters are no digits any more.
  function FirstOther(s: seq<byte>, from: nat): (i: nat)
    requires from < |s|
    ensures from <= i < |s| && (i < |s| - 1 ==> !IsDigit(s[i]))
    ensures forall j | from <= j < i :: IsDigit(s[j])
    decreases |s| - from
  {
    if from < |s| - 1 && IsDigit(s[from]) then FirstOther(s, from + 1) else from
  }

  function Singles(s: seq<byte>): (units: seq<seq<byte>>)
    ensures |units| == |s|
  {
    seq(|s|, i requires 0 <= i < |s| => [s[i]])
  }

  function Typed(s: seq<byte>): (keys: seq<Key>)
    ensures |keys| == |s|
  {
    seq(|s|, i requires 0 <= i < |s| => Char(s[i], false))
  }

  lemma {:induction false} TypedReads(s: seq<byte>)
    requires forall i | 0 <= i < |s| :: 0x20 <= s[i] < 0x7F
    ensures Reads(s, Singles(s), []) && Units(Singles(s)) && KeysOf(Singles(s)) == Typed(s)
  {
    if s != [] {
      TypedReads(s[1..]);
      assert Singles(s)[1..] == Singles(s[1..]) && Typed(s) == [Char(s[0], false)] + Typed(s[1..]);
    }
  }

  lemma CutOff(s: seq<byte>, i: nat)
    requires IsControlSequence(s) && 2 <= i < |s| - 1 && i < MAX_PENDING && !IsDigit(s[i])
    requires forall j | 2 <= j < i :: IsDigit(s[j])
    ensures var u, after := s[..i + 1], s[i + 1..]; var units := [u] + Singles(after);
      Reads(s, units, []) && Units(units) && KeysOf(units) == Typed(after)
  {
    hide Complete, Incomplete, Reads, Units, KeyOf, KeysOf;
    var u, after := s[..i + 1], s[i + 1..];
    CutIsNothing(u);
    TypedReads(after);
    NothingFirst(u, after, Singles(after));
    assert u + after == s;
  }

  lemma NothingFirst(u: seq<byte>, after: seq<byte>, more: seq<seq<byte>>)
    requires u != [] && Complete(u) && KeyOf(u) == None && Reads(after, more, []) && Units(more)
    ensures Reads(u + after, [u] + more, []) && Units([u] + more) && KeysOf([u] + more) == KeysOf(more)
  {
    hide Complete, Incomplete, KeyOf, KeysOf, Units;
    assert ([u] + more)[1..] == more && (u + after)[|u|..] == after;
    OneUnit(u);
    KeysConcat([u], more);
  }

  lemma CutIsNothing(u: seq<byte>)
    requires 3 <= |u| <= MAX_PENDING && u[0] == ESC && Introduces(u[1])
    requires 0x20 <= u[|u| - 1] < 0x40 && !IsDigit(u[|u| - 1]) && forall j | 2 <= j < |u| - 1 :: IsDigit(u[j])
    ensures Complete(u) && KeyOf(u) == None
  {
    Whole(u);
  }

  lemma WholeReads(s: seq<byte>)
    requires IsControlSequence(s) && OnlyDigits(s) && |s| <= MAX_PENDING
    ensures Complete(s) && Reads(s, [s], [])
  {
    Whole(s);
    assert Reads(s[|s|..], [], []) && [s][1..] == [];
  }

  // A control sequence is taken as a whole exactly if its parameters are digits
  // only, and few enough.  Otherwise it is dropped up to the first that is none,
  // and what follows is told as if it had been typed.
  lemma TakenWhole(machine: KeyInput, s: seq<byte>)
    requires machine.Valid() && machine.input == s && IsControlSequence(s)
    ensures machine.units == [s] <==> OnlyDigits(s) && |s| <= 32
    ensures machine.units == [s] ==> machine.told == if KeyOf(s).Some? then [KeyOf(s).value] else []
    ensures var i := FirstOther(s, 2);
      !OnlyDigits(s) && i < MAX_PENDING ==> machine.told == Typed(s[i + 1..]) && machine.told != []
  {
    assert |s| >= 3;
    hide Complete, Incomplete, KeyOf, KeysOf, Units, IsControlSequence, OnlyDigits;
    var units, rest, i := machine.units, machine.pending[..machine.nPending], FirstOther(s, 2);
    hide Reads;
    if OnlyDigits(s) && |s| <= MAX_PENDING {
      WholeReads(s);
      OneReading(s, units, rest, [s], []);
      OneUnit(s);
    } else {
      if units == [s] {
        CompleteIsDigits(s, rest);
      }
      if !OnlyDigits(s) && i < MAX_PENDING {
        OtherFound(s);
        CutOff(s, i);
        OneReading(s, units, rest, [s[..i + 1]] + Singles(s[i + 1..]), []);
      }
    }
  }

  lemma OtherFound(s: seq<byte>)
    requires IsControlSequence(s) && !OnlyDigits(s)
    ensures FirstOther(s, 2) < |s| - 1
  {
  }

  lemma CompleteIsDigits(s: seq<byte>, rest: seq<byte>)
    requires IsControlSequence(s) && Reads(s, [s], rest)
    ensures OnlyDigits(s) && |s| <= MAX_PENDING
  {
    assert s[|s|..] == [];
    var p := s[..|s| - 1];
    forall i | 2 <= i < |s| - 1
      ensures IsDigit(s[i])
    {
      assert p[i] == s[i];
    }
  }

  // An arrow key with a modifier, ESC [ 1 ; 5 C, is dropped up to the semicolon
  // only, although the comment in the source has it dropped.
  lemma ModifierLeaks(machine: KeyInput)
    requires machine.Valid() && machine.input == [ESC, 91, 49, 59, 53, 67]
    ensures machine.units != [machine.input] && machine.told == [Char(53, false), Char(67, false)]
  {
    var s: seq<byte> := [ESC, 91, 49, 59, 53, 67];
    assert !IsDigit(s[3]) && IsDigit(s[2]);
    assert FirstOther(s, 2) == FirstOther(s, 3) == 3;
    TakenWhole(machine, s);
    assert s[4..] == [53, 67];
  }
}
