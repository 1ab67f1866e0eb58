// The words of a command line, as src/yc-shell.c reads them: expansion first,
// field splitting second (sections 2.2, 2.6.2 and 2.6.5 of POSIX.1-2017 XCU).
module ShellSyntax {
  import opened Basics

  datatype Code = Empty | NoCommand | Syntax | Unsupported

  datatype Error = Error(code: Code, position: nat)

  datatype Result<+T> = Ok(value: T) | Err(error: Error)

  type Env = map<string, string>

  const NUL := '\0'

  // The longest variable name that fits the buffer of 128 with its NUL.
  const MAX_NAME := 127

  // A C string, with its terminator.
  function At(text: string, i: nat): char {
    if i < |text| then text[i] else NUL
  }

  predicate CString(text: string) {
    NUL !in text
  }

  predicate IsBlank(c: char) {
    c == ' ' || c == '\t' || c == '\n' || c == '\r'
  }

  predicate IsDigit(c: char) {
    '0' <= c <= '9'
  }

  predicate IsNameStart(c: char) {
    'a' <= c <= 'z' || 'A' <= c <= 'Z' || c == '_'
  }

  predicate IsNameChar(c: char) {
    IsNameStart(c) || IsDigit(c)
  }

  // Characters that end a word and are left for the caller.
  predicate EndsWord(c: char) {
    c == NUL || IsBlank(c) || c == '<' || c == '>'
  }

  // Constructs that only a real shell understands.
  predicate NeedsShell(c: char) {
    c in "|&;()*?[]{}`!"
  }

  predicate IsSpecialParameter(c: char) {
    c in "$?!#@*" || IsDigit(c)
  }

  // The characters that keep their meaning after a backslash in double quotes.
  predicate IsEscapable(c: char) {
    c == '$' || c == '"' || c == '\\' || c == '`'
  }

  // The first position from p on that is not within a name.
  function NameEnd(text: string, p: nat): (e: nat)
    ensures p <= e && (p <= |text| ==> e <= |text|)
    ensures !IsNameChar(At(text, e))
    ensures forall i | p <= i < e :: IsNameChar(At(text, i))
    decreases |text| - p
  {
    if IsNameChar(At(text, p)) then NameEnd(text, p + 1) else p
  }

  // ---- parameters ----

  // What stands at a '$': a variable, or only a dollar sign.
  datatype Parameter = Dollar | Variable(name: string)

  datatype Found<+T> = Found(what: T, next: nat)

  function ParameterAt(text: string, p: nat): (r: Result<Found<Parameter>>)
    requires At(text, p) == '$'
    ensures r.Ok? ==> p < r.value.next <= |text|
    ensures r.Err? ==> r.error.position <= |text| && (r.error.code.Syntax? || r.error.code.Unsupported?)
  {
    var braced := At(text, p + 1) == '{';
    var n := if braced then p + 2 else p + 1;
    if At(text, p + 1) == '(' then Err(Error(Unsupported, p))
    else if !IsNameStart(At(text, n)) then
      if braced || IsSpecialParameter(At(text, n)) then Err(Error(Unsupported, p)) else Ok(Found(Dollar, p + 1))
    else
      var e := NameEnd(text, n);
      if e - n > MAX_NAME then Err(Error(Unsupported, p))
      else if !braced then Ok(Found(Variable(text[n..e]), e))
      else if At(text, e) != '}' then Err(Error(Unsupported, e))
      else Ok(Found(Variable(text[n..e]), e + 1))
  }

  // ---- first phase: expansion ----

  // A byte of an expanded word, which may be split at if it came from an
  // expansion outside quotes; or the trace of a pair of quotes.
  datatype Unit = Byte(c: char, splittable: bool) | Quotes

  function Units(s: string, splittable: bool): (us: seq<Unit>)
    ensures |us| == |s| && forall i | 0 <= i < |s| :: us[i] == Byte(s[i], splittable)
  {
    seq(|s|, i requires 0 <= i < |s| => Byte(s[i], splittable))
  }

  // An unset variable has no value, as has one set to nothing.
  function ValueOf(env: Env, what: Parameter): string
    requires what.Variable?
  {
    if what.name in env then env[what.name] else ""
  }

  function Expansion(env: Env, what: Parameter, splittable: bool): seq<Unit> {
    match what
    case Dollar => [Byte('$', false)]
    case Variable(_) => Units(ValueOf(env, what), splittable)
  }

  type Expanded = Result<Found<seq<Unit>>>

  // Inside single quotes.
  function Single(text: string, p: nat, before: seq<Unit>): (r: Expanded)
    requires p <= |text|
    ensures r.Ok? ==> p < r.value.next <= |text|
    ensures r.Err? ==> r.error.position <= |text| && (r.error.code.Syntax? || r.error.code.Unsupported?)
    decreases |text| - p
  {
    if At(text, p) == '\'' then Ok(Found(before, p + 1))
    else if At(text, p) == NUL || p == |text| then Err(Error(Syntax, p))
    else Single(text, p + 1, before + [Byte(text[p], false)])
  }

  // Inside double quotes.
  function Double(text: string, p: nat, before: seq<Unit>, env: Env): (r: Expanded)
    requires p <= |text|
    ensures r.Ok? ==> p < r.value.next <= |text|
    ensures r.Err? ==> r.error.position <= |text| && (r.error.code.Syntax? || r.error.code.Unsupported?)
    decreases |text| - p
  {
    var c := At(text, p);
    if c == NUL || p == |text| then Err(Error(Syntax, p))
    else if c == '"' then Ok(Found(before, p + 1))
    else if c == '\\' && IsEscapable(At(text, p + 1)) then Double(text, p + 2, before + [Byte(text[p + 1], false)], env)
    else if c == '\\' && At(text, p + 1) == '\n' then Double(text, p + 2, before, env)
    else if c == '`' then Err(Error(Unsupported, p))
    else if c == '$' then
      match ParameterAt(text, p)
      case Err(e) => Err(e)
      case Ok(found) => Double(text, found.next, before + Expansion(env, found.what, false), env)
    else Double(text, p + 1, before + [Byte(c, false)], env)
  }

  // The whole word.  `split` says whether its unquoted expansions are split later.
  function Word(text: string, p: nat, before: seq<Unit>, split: bool, env: Env): (r: Expanded)
    requires p <= |text|
    ensures r.Ok? ==> p <= r.value.next <= |text| && EndsWord(At(text, r.value.next))
    ensures r.Ok? && !EndsWord(At(text, p)) ==> p < r.value.next
    ensures r.Err? ==> r.error.position <= |text| && (r.error.code.Syntax? || r.error.code.Unsupported?)
    decreases |text| - p
  {
    var c := At(text, p);
    if EndsWord(c) then Ok(Found(before, p))
    else if c == '\'' then
      match Single(text, p + 1, before + [Quotes])
      case Err(e) => Err(e)
      case Ok(found) => Word(text, found.next, found.what, split, env)
    else if c == '"' then
      match Double(text, p + 1, before + [Quotes], env)
      case Err(e) => Err(e)
      case Ok(found) => Word(text, found.next, found.what, split, env)
    else if c == '\\' then
      if At(text, p + 1) == NUL then Err(Error(Syntax, p))
      else if At(text, p + 1) == '\n' then Word(text, p + 2, before, split, env)
      else Word(text, p + 2, before + [Byte(text[p + 1], false)], split, env)
    else if c == '$' then
      match ParameterAt(text, p)
      case Err(e) => Err(e)
      case Ok(found) => Word(text, found.next, before + Expansion(env, found.what, split), split, env)
    else if NeedsShell(c) || (c == '~' && AtFieldStart(before)) then Err(Error(Unsupported, p))
    else Word(text, p + 1, before + [Byte(c, false)], split, env)
  }

  // ---- second phase: field splitting ----

  predicate Separates(u: Unit) {
    u.Byte? && u.splittable && IsBlank(u.c)
  }

  // The pieces between separating bytes.
  function Pieces(us: seq<Unit>): (ps: seq<seq<Unit>>)
    ensures |ps| >= 1
  {
    if us == [] then [[]]
    else
      var rest := Pieces(us[1..]);
      if Separates(us[0]) then [[]] + rest else [[us[0]] + rest[0]] + rest[1..]
  }

  function Text(piece: seq<Unit>): string {
    if piece == [] then ""
    else if piece[0].Byte? then [piece[0].c] + Text(piece[1..])
    else Text(piece[1..])
  }

  // A piece with neither bytes nor quotes is no field.
  function Kept(ps: seq<seq<Unit>>): seq<string> {
    if ps == [] then []
    else if ps[0] == [] then Kept(ps[1..])
    else [Text(ps[0])] + Kept(ps[1..])
  }

  function Fields(us: seq<Unit>): seq<string> {
    Kept(Pieces(us))
  }

  // The piece that the next unit would join.
  function Open(us: seq<Unit>): seq<Unit> {
    var ps := Pieces(us);
    ps[|ps| - 1]
  }

  predicate AtFieldStart(us: seq<Unit>) {
    Open(us) == []
  }

  // The fields before that piece.
  function Closed(us: seq<Unit>): seq<string> {
    var ps := Pieces(us);
    Kept(ps[..|ps| - 1])
  }

  // ---- splitting while expanding comes to the same ----

  // Growing the pieces at the front and at the back commute.
  lemma BothEnds(ps: seq<seq<Unit>>, first: Unit, last: Unit)
    requires |ps| >= 1
    ensures var k := |ps| - 1;
      var grown := if Separates(last) then ps + [[]] else ps[..k] + [ps[k] + [last]];
      var front := if Separates(first) then [[]] + ps else [[first] + ps[0]] + ps[1..];
      var j := |front| - 1;
      (if Separates(first) then [[]] + grown else [[first] + grown[0]] + grown[1..])
      == if Separates(last) then front + [[]] else front[..j] + [front[j] + [last]]
  {
    if |ps| == 1 {
      assert [first] + (ps[0] + [last]) == [first] + ps[0] + [last];
    }
  }

  lemma {:induction false} PiecesAppend(us: seq<Unit>, u: Unit)
    ensures var ps, k := Pieces(us), |Pieces(us)| - 1;
      Pieces(us + [u]) == if Separates(u) then ps + [[]] else ps[..k] + [ps[k] + [u]]
  {
    if us == [] {
      assert us + [u] == [u] && [u][1..] == [];
      assert Pieces([]) == [[]];
      if !Separates(u) {
        assert [u] + Pieces([])[0] == [u] && [] + [u] == [u];
      }
    } else {
      assert (us + [u])[1..] == us[1..] + [u];
      PiecesAppend(us[1..], u);
      BothEnds(Pieces(us[1..]), us[0], u);
    }
  }

  lemma {:induction false} KeptConcat(a: seq<seq<Unit>>, b: seq<seq<Unit>>)
    ensures Kept(a + b) == Kept(a) + Kept(b)
  {
    if a == [] {
      assert a + b == b;
    } else {
      assert (a + b)[1..] == a[1..] + b;
      KeptConcat(a[1..], b);
    }
  }

  lemma {:induction false} TextConcat(a: seq<Unit>, b: seq<Unit>)
    ensures Text(a + b) == Text(a) + Text(b)
  {
    if a == [] {
      assert a + b == b;
    } else {
      assert (a + b)[1..] == a[1..] + b;
      TextConcat(a[1..], b);
    }
  }

  // One more unit: a separating byte closes the open piece, which is a field
  // unless it is empty; any other unit joins it.
  lemma OneUnit(us: seq<Unit>, u: Unit)
    ensures Separates(u) ==> Open(us + [u]) == []
    ensures Separates(u) ==> Closed(us + [u]) == Closed(us) + if Open(us) == [] then [] else [Text(Open(us))]
    ensures !Separates(u) ==> Open(us + [u]) == Open(us) + [u] && Closed(us + [u]) == Closed(us)
    ensures !Separates(u) ==> Text(Open(us + [u])) == Text(Open(us)) + if u.Byte? then [u.c] else ""
  {
    PiecesAppend(us, u);
    var ps := Pieces(us);
    var k := |ps| - 1;
    if Separates(u) {
      assert (ps + [[]])[..k + 1] == ps[..k] + [ps[k]];
      KeptConcat(ps[..k], [ps[k]]);
    } else {
      assert (ps[..k] + [ps[k] + [u]])[..k] == ps[..k];
      TextConcat(ps[k], [u]);
    }
  }

  // The end of the word: the open piece is the last field unless it is empty.
  lemma LastField(us: seq<Unit>)
    ensures Fields(us) == Closed(us) + if Open(us) == [] then [] else [Text(Open(us))]
  {
    var ps := Pieces(us);
    var k := |ps| - 1;
    assert ps == ps[..k] + [ps[k]];
    KeptConcat(ps[..k], [ps[k]]);
  }

  lemma NoUnits()
    ensures Open([]) == [] && Closed([]) == []
  {
  }

  // ---- what is never split ----

  // An expanded word that was not to be split has no separating byte ...
  lemma {:induction false} NothingSeparates(text: string, p: nat, before: seq<Unit>, env: Env)
    requires p <= |text| && forall u | u in before :: !Separates(u)
    ensures var r := Word(text, p, before, false, env); r.Ok? ==> forall u | u in r.value.what :: !Separates(u)
    decreases |text| - p
  {
    var c := At(text, p);
    if EndsWord(c) {
    } else if c == '\'' {
      SingleIsPlain(text, p + 1, before + [Quotes]);
      var r := Single(text, p + 1, before + [Quotes]);
      if r.Ok? { NothingSeparates(text, r.value.next, r.value.what, env); }
    } else if c == '"' {
      DoubleIsPlain(text, p + 1, before + [Quotes], env);
      var r := Double(text, p + 1, before + [Quotes], env);
      if r.Ok? { NothingSeparates(text, r.value.next, r.value.what, env); }
    } else if c == '\\' {
      if At(text, p + 1) == '\n' {
        NothingSeparates(text, p + 2, before, env);
      } else if At(text, p + 1) != NUL {
        NothingSeparates(text, p + 2, before + [Byte(text[p + 1], false)], env);
      }
    } else if c == '$' {
      var r := ParameterAt(text, p);
      if r.Ok? { NothingSeparates(text, r.value.next, before + Expansion(env, r.value.what, false), env); }
    } else if !NeedsShell(c) && !(c == '~' && AtFieldStart(before)) {
      NothingSeparates(text, p + 1, before + [Byte(c, false)], env);
    }
  }

  lemma {:induction false} SingleIsPlain(text: string, p: nat, before: seq<Unit>)
    requires p <= |text| && forall u | u in before :: !Separates(u)
    ensures var r := Single(text, p, before); r.Ok? ==> forall u | u in r.value.what :: !Separates(u)
    decreases |text| - p
  {
    if At(text, p) != '\'' && At(text, p) != NUL && p != |text| {
      SingleIsPlain(text, p + 1, before + [Byte(text[p], false)]);
    }
  }

  lemma {:induction false} DoubleIsPlain(text: string, p: nat, before: seq<Unit>, env: Env)
    requires p <= |text| && forall u | u in before :: !Separates(u)
    ensures var r := Double(text, p, before, env); r.Ok? ==> forall u | u in r.value.what :: !Separates(u)
    decreases |text| - p
  {
    var c := At(text, p);
    if c == NUL || p == |text| || c == '"' {
    } else if c == '\\' && IsEscapable(At(text, p + 1)) {
      DoubleIsPlain(text, p + 2, before + [Byte(text[p + 1], false)], env);
    } else if c == '\\' && At(text, p + 1) == '\n' {
      DoubleIsPlain(text, p + 2, before, env);
    } else if c == '$' {
      var r := ParameterAt(text, p);
      if r.Ok? { DoubleIsPlain(text, r.value.next, before + Expansion(env, r.value.what, false), env); }
    } else if c != '`' {
      DoubleIsPlain(text, p + 1, before + [Byte(c, false)], env);
    }
  }

  lemma {:induction false} OnePiece(us: seq<Unit>)
    requires forall u | u in us :: !Separates(u)
    ensures Pieces(us) == [us]
  {
    if us != [] {
      OnePiece(us[1..]);
      assert us == [us[0]] + us[1..];
    }
  }

  lemma KeptOne(piece: seq<Unit>)
    ensures Kept([piece]) == if piece == [] then [] else [Text(piece)]
  {
    assert [piece][1..] == [];
  }

  // ... and so gives one field, or none.
  lemma AtMostOneField(text: string, p: nat, env: Env)
    requires p <= |text|
    ensures var r := Word(text, p, [], false, env);
      r.Ok? ==> Fields(r.value.what) == if r.value.what == [] then [] else [Text(r.value.what)]
  {
    NothingSeparates(text, p, [], env);
    var r := Word(text, p, [], false, env);
    if r.Ok? {
      OnePiece(r.value.what);
      KeptOne(r.value.what);
    }
  }
}
