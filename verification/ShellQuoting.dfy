// Quoting and reading back: sections 2.2.1 to 2.2.3 of POSIX.1-2017 XCU.
module ShellQuoting {
  import opened ShellSyntax
  import opened ShellRedirections
  import opened ShellLine

  // A string in single quotes, an apostrophe as '\''.
  function InSingle(s: string): string {
    if s == "" then ""
    else if s[0] == '\'' then "'\\''" + InSingle(s[1..])
    else [s[0]] + InSingle(s[1..])
  }

  // A string in double quotes, with a backslash before $ " \ and backquote.
  function InDouble(s: string): string {
    if s == "" then ""
    else if IsEscapable(s[0]) then ['\\', s[0]] + InDouble(s[1..])
    else [s[0]] + InDouble(s[1..])
  }

  datatype Style = SingleQuotes | DoubleQuotes

  function Quote(s: string, style: Style): string {
    match style
    case SingleQuotes => "'" + InSingle(s) + "'"
    case DoubleQuotes => "\"" + InDouble(s) + "\""
  }

  // One argument as written, after the blanks before it.
  datatype Written = Written(gap: string, arg: string, style: Style)

  predicate Blanks(s: string) {
    forall c | c in s :: IsBlank(c)
  }

  // Arguments are set apart by blanks; there may be more at both ends.
  predicate Proper(ws: seq<Written>, tail: string) {
    && Blanks(tail)
    && (forall i | 0 <= i < |ws| :: Blanks(ws[i].gap) && NUL !in ws[i].arg)
    && (forall i | 0 < i < |ws| :: ws[i].gap != "")
  }

  function Spell(ws: seq<Written>, tail: string): string {
    if ws == [] then tail
    else ws[0].gap + Quote(ws[0].arg, ws[0].style) + Spell(ws[1..], tail)
  }

  function Args(ws: seq<Written>): seq<string> {
    seq(|ws|, i requires 0 <= i < |ws| => ws[i].arg)
  }

  // ---- one word ----

  // `part` stands at p.
  predicate Stands(text: string, p: nat, part: string) {
    p + |part| <= |text| && text[p..p + |part|] == part
  }

  lemma StandsSplit(text: string, p: nat, a: string, b: string)
    requires Stands(text, p, a + b)
    ensures Stands(text, p, a) && Stands(text, p + |a|, b) && p + |a| + |b| <= |text|
    ensures a != "" ==> At(text, p) == a[0]
    ensures b != "" ==> At(text, p + |a|) == b[0]
  {
    var w := text[p..p + |a + b|];
    assert text[p..p + |a|] == w[..|a|] == a;
    assert text[p + |a|..p + |a| + |b|] == w[|a|..] == b;
    if a != "" { assert text[p] == text[p..p + |a|][0]; }
    if b != "" { assert text[p + |a|] == text[p + |a|..p + |a| + |b|][0]; }
  }

  // The rest of a word, from within single quotes on.
  function WithinSingle(text: string, p: nat, before: seq<Unit>, split: bool, env: Env): Expanded
    requires p <= |text|
  {
    match Single(text, p, before)
    case Err(e) => Err(e)
    case Ok(found) => Word(text, found.next, found.what, split, env)
  }

  // What comes out of a quoted string: its bytes, none splittable, and quotes.
  ghost predicate Yields(us: seq<Unit>, s: string) {
    Text(us) == s && forall u | u in us :: !Separates(u)
  }

  lemma YieldsMore(a: seq<Unit>, s: string, b: seq<Unit>, t: string)
    requires Yields(a, s) && Yields(b, t)
    ensures Yields(a + b, s + t)
  {
    TextConcat(a, b);
  }

  lemma YieldsNothing()
    ensures Yields([], "")
  {
  }

  lemma YieldsOne(c: char)
    ensures Yields([Byte(c, false)], [c])
  {
    assert [Byte(c, false)][1..] == [];
  }

  lemma YieldsApostrophe()
    ensures Yields([Byte('\'', false), Quotes], "'")
  {
    assert [Byte('\'', false), Quotes][1..] == [Quotes] && [Quotes][1..] == [];
  }

  // An apostrophe ends the quotes, stands escaped, and begins them again.
  lemma OverApostrophe(text: string, p: nat, before: seq<Unit>, split: bool, env: Env)
    requires Stands(text, p, "'\\''")
    ensures p + 4 <= |text|
    ensures WithinSingle(text, p, before, split, env)
         == WithinSingle(text, p + 4, before + [Byte('\'', false), Quotes], split, env)
  {
    assert text[p..p + 4] == "'\\''";
    assert text[p] == '\'' && text[p + 1] == '\\' && text[p + 2] == '\'' && text[p + 3] == '\'';
    assert Single(text, p, before) == Ok(Found(before, p + 1));
    var one := before + [Byte('\'', false)];
    assert Word(text, p + 1, before, split, env) == Word(text, p + 3, one, split, env);
    assert one + [Quotes] == before + [Byte('\'', false), Quotes];
  }

  lemma OverPlain(text: string, p: nat, c: char, before: seq<Unit>, split: bool, env: Env)
    requires p < |text| && At(text, p) == c && c != NUL && c != '\''
    ensures WithinSingle(text, p, before, split, env) == WithinSingle(text, p + 1, before + [Byte(c, false)], split, env)
  {
  }

  lemma OverClose(text: string, p: nat, before: seq<Unit>, split: bool, env: Env)
    requires p < |text| && At(text, p) == '\''
    ensures WithinSingle(text, p, before, split, env) == Word(text, p + 1, before, split, env)
  {
  }

  lemma {:induction false} ReadBackSingle(text: string, p: nat, s: string, before: seq<Unit>, split: bool, env: Env)
      returns (us: seq<Unit>)
    requires NUL !in s && Stands(text, p, InSingle(s) + "'")
    ensures Yields(us, s) && p + |InSingle(s)| < |text|
    ensures WithinSingle(text, p, before, split, env)
         == Word(text, p + |InSingle(s)| + 1, before + us, split, env)
    decreases s
  {
    hide Stands, Yields, WithinSingle, Word;
    if s == "" {
      us := [];
      assert InSingle(s) + "'" == "'";
      StandsSplit(text, p, "", "'");
      assert before + us == before;
      YieldsNothing();
      OverClose(text, p, before, split, env);
      return;
    }
    var first := if s[0] == '\'' then "'\\''" else [s[0]];
    var one := if s[0] == '\'' then [Byte('\'', false), Quotes] else [Byte(s[0], false)];
    var rest := InSingle(s[1..]) + "'";
    assert InSingle(s) + "'" == first + rest;
    StandsSplit(text, p, first, rest);
    if s[0] == '\'' {
      OverApostrophe(text, p, before, split, env);
      YieldsApostrophe();
    } else {
      OverPlain(text, p, s[0], before, split, env);
      YieldsOne(s[0]);
    }
    var more := ReadBackSingle(text, p + |first|, s[1..], before + one, split, env);
    us := one + more;
    assert (before + one) + more == before + us;
    YieldsMore(one, [s[0]], more, s[1..]);
    assert [s[0]] + s[1..] == s;
  }

  lemma {:induction false} ReadBackDouble(text: string, p: nat, s: string, before: seq<Unit>, env: Env)
    requires NUL !in s && Stands(text, p, InDouble(s) + "\"")
    ensures Double(text, p, before, env) == Ok(Found(before + Units(s, false), p + |InDouble(s)| + 1))
    decreases s
  {
    hide Stands;
    if s == "" {
      assert InDouble(s) + "\"" == "\"";
      StandsSplit(text, p, "", "\"");
      assert before + Units(s, false) == before;
    } else {
      var rest := InDouble(s[1..]) + "\"";
      var one := [Byte(s[0], false)];
      assert (before + one) + Units(s[1..], false) == before + Units(s, false);
      if IsEscapable(s[0]) {
        assert InDouble(s) + "\"" == ['\\', s[0]] + rest;
        StandsSplit(text, p, ['\\', s[0]], rest);
        assert ['\\', s[0]] == ['\\'] + [s[0]];
        StandsSplit(text, p, ['\\'], [s[0]]);
        ReadBackDouble(text, p + 2, s[1..], before + one, env);
      } else {
        assert InDouble(s) + "\"" == [s[0]] + rest;
        StandsSplit(text, p, [s[0]], rest);
        ReadBackDouble(text, p + 1, s[1..], before + one, env);
      }
    }
  }

  // At an opening quote ...
  lemma AtSingleQuote(text: string, p: nat, split: bool, env: Env)
    requires p < |text| && At(text, p) == '\''
    ensures Word(text, p, [], split, env) == WithinSingle(text, p + 1, [Quotes], split, env)
  {
    assert [] + [Quotes] == [Quotes];
  }

  lemma AtDoubleQuote(text: string, p: nat, us: seq<Unit>, q: nat, split: bool, env: Env)
    requires p < |text| && At(text, p) == '"' && Double(text, p + 1, [Quotes], env) == Ok(Found(us, q))
    ensures q <= |text| && Word(text, p, [], split, env) == Word(text, q, us, split, env)
  {
    assert [] + [Quotes] == [Quotes];
  }

  // ... and at the end of the word.
  lemma AtWordEnd(text: string, p: nat, us: seq<Unit>, split: bool, env: Env)
    requires p <= |text| && EndsWord(At(text, p))
    ensures Word(text, p, us, split, env) == Ok(Found(us, p))
  {
  }

  // From an opening quote to what follows the closing one.
  lemma ReadSingleWord(text: string, p: nat, s: string, split: bool, env: Env) returns (us: seq<Unit>)
    requires NUL !in s && Stands(text, p, Quote(s, SingleQuotes))
    ensures var q := p + |Quote(s, SingleQuotes)|;
      q <= |text| && Yields(us, s) && Word(text, p, [], split, env) == Word(text, q, [Quotes] + us, split, env)
  {
    hide Stands, Yields, Word, WithinSingle, InSingle;
    var inside := InSingle(s) + "'";
    assert Quote(s, SingleQuotes) == "'" + inside;
    StandsSplit(text, p, "'", inside);
    us := ReadBackSingle(text, p + 1, s, [Quotes], split, env);
    AtSingleQuote(text, p, split, env);
  }

  lemma ReadDoubleWord(text: string, p: nat, s: string, split: bool, env: Env) returns (us: seq<Unit>)
    requires NUL !in s && Stands(text, p, Quote(s, DoubleQuotes))
    ensures var q := p + |Quote(s, DoubleQuotes)|;
      q <= |text| && Yields(us, s) && Word(text, p, [], split, env) == Word(text, q, [Quotes] + us, split, env)
  {
    hide Stands, Yields, Word, Double, InDouble;
    var inside := InDouble(s) + "\"";
    assert Quote(s, DoubleQuotes) == "\"" + inside;
    StandsSplit(text, p, "\"", inside);
    us := Units(s, false);
    ReadBackDouble(text, p + 1, s, [Quotes], env);
    AtDoubleQuote(text, p, [Quotes] + us, p + |Quote(s, DoubleQuotes)|, split, env);
    UnitsYield(s);
  }

  // A quoted string at p, with a word's end after it, is read as one field.
  lemma ReadBackWord(text: string, p: nat, s: string, style: Style, split: bool, env: Env)
    requires NUL !in s && Stands(text, p, Quote(s, style)) && EndsWord(At(text, p + |Quote(s, style)|))
    ensures var r := Word(text, p, [], split, env);
      r.Ok? && r.value.next == p + |Quote(s, style)| && Fields(r.value.what) == [s]
  {
    hide Stands, Yields, Fields, Word, Double, EndsWord;
    var q := p + |Quote(s, style)|;
    var us;
    if style == SingleQuotes {
      us := ReadSingleWord(text, p, s, split, env);
    } else {
      us := ReadDoubleWord(text, p, s, split, env);
    }
    AtWordEnd(text, q, [Quotes] + us, split, env);
    OneField(us, s);
  }

  lemma {:induction false} UnitsYield(s: string)
    ensures Yields(Units(s, false), s)
  {
    if s != "" {
      UnitsYield(s[1..]);
      assert Units(s, false)[1..] == Units(s[1..], false);
    }
  }

  lemma OneField(us: seq<Unit>, s: string)
    requires Yields(us, s)
    ensures Fields([Quotes] + us) == [s]
  {
    var all := [Quotes] + us;
    OnePiece(all);
    KeptOne(all);
    assert all[1..] == us;
  }

  // ---- the line ----

  lemma {:induction false} OverBlanks(text: string, p: nat, gap: string)
    requires Blanks(gap) && Stands(text, p, gap) && !IsBlank(At(text, p + |gap|))
    ensures SkipBlanks(text, p) == p + |gap|
    decreases |gap|
  {
    if gap != "" {
      assert gap == [gap[0]] + gap[1..];
      StandsSplit(text, p, [gap[0]], gap[1..]);
      OverBlanks(text, p + 1, gap[1..]);
    }
  }

  lemma FirstOfQuote(s: string, style: Style)
    ensures Quote(s, style) != "" && (Quote(s, style)[0] == '\'' || Quote(s, style)[0] == '"')
  {
  }

  lemma StartsWithGap(ws: seq<Written>, tail: string, text: string, p: nat)
    requires Proper(ws, tail) && (ws != [] ==> ws[0].gap != "") && Stands(text, p, Spell(ws, tail))
    requires p + |Spell(ws, tail)| == |text|
    ensures EndsWord(At(text, p))
  {
    hide Stands, Quote;
    if ws != [] {
      var gap := ws[0].gap;
      assert Spell(ws, tail) == gap + (Quote(ws[0].arg, ws[0].style) + Spell(ws[1..], tail));
      StandsSplit(text, p, gap, Quote(ws[0].arg, ws[0].style) + Spell(ws[1..], tail));
      assert gap[0] in gap;
    } else if tail != "" {
      assert tail + "" == tail;
      StandsSplit(text, p, tail, "");
      assert tail[0] in tail;
    }
  }

  lemma OverWord(text: string, p: nat, b: nat, next: nat, arg: string, so: Parsed, env: Env)
    requires p <= |text| && b == SkipBlanks(text, p) && (At(text, b) == '\'' || At(text, b) == '"')
    requires var r := Word(text, b, [], true, env); r.Ok? && r.value.next == next && Fields(r.value.what) == [arg]
    ensures next <= |text|
    ensures LineFrom(text, p, so, env) == LineFrom(text, next, so.(args := so.args + [arg]), env)
  {
    hide Word, Fields;
  }

  lemma AtEnd(text: string, p: nat, so: Parsed, env: Env)
    requires p <= |text| && SkipBlanks(text, p) == |text|
    ensures LineFrom(text, p, so, env) == Ok(Found(so, |text|))
  {
  }

  lemma SpellOut(ws: seq<Written>, tail: string)
    requires Proper(ws, tail)
    ensures ws == [] ==> Spell(ws, tail) == tail && Blanks(tail)
    ensures ws != [] ==> Proper(ws[1..], tail) && Blanks(ws[0].gap) && NUL !in ws[0].arg
    ensures ws != [] ==> Spell(ws, tail) == ws[0].gap + (Quote(ws[0].arg, ws[0].style) + Spell(ws[1..], tail))
    ensures |ws| > 1 ==> ws[1..][0].gap != ""
  {
  }

  lemma {:induction false} ReadBackFrom(text: string, p: nat, ws: seq<Written>, tail: string, so: Parsed, env: Env)
    requires Proper(ws, tail) && Stands(text, p, Spell(ws, tail)) && p + |Spell(ws, tail)| == |text|
    ensures LineFrom(text, p, so, env) == Ok(Found(so.(args := so.args + Args(ws)), |text|))
    decreases |ws|
  {
    hide Stands, Quote, Word, Fields, LineFrom, SkipBlanks, Spell, Proper, EndsWord;
    SpellOut(ws, tail);
    if ws == [] {
      OverBlanks(text, p, tail);
      AtEnd(text, p, so, env);
      assert so.args + Args(ws) == so.args;
    } else {
      var w, quoted, rest := ws[0], Quote(ws[0].arg, ws[0].style), Spell(ws[1..], tail);
      StandsSplit(text, p, w.gap, quoted + rest);
      var b := p + |w.gap|;
      StandsSplit(text, b, quoted, rest);
      FirstOfQuote(w.arg, w.style);
      OverBlanks(text, p, w.gap);
      var next := b + |quoted|;
      StartsWithGap(ws[1..], tail, text, next);
      ReadBackWord(text, b, w.arg, w.style, true, env);
      OverWord(text, p, b, next, w.arg, so, env);
      assert so.args + [w.arg] + Args(ws[1..]) == so.args + Args(ws);
      ReadBackFrom(text, next, ws[1..], tail, so.(args := so.args + [w.arg]), env);
    }
  }

  // Main result: a non-empty list of strings, each quoted either way, reads
  // back as just that list, with no assignment and no redirection.
  lemma ReadBack(ws: seq<Written>, tail: string, env: Env, fallback: bool)
    requires Proper(ws, tail) && ws != []
    ensures Parse(Spell(ws, tail), env, fallback) == Direct(Args(ws), [], [])
  {
    var text := Spell(ws, tail);
    assert Stands(text, 0, text);
    ReadBackFrom(text, 0, ws, tail, NOTHING, env);
    assert [] + Args(ws) == Args(ws);
    NoSlots();
  }
}
