// What is written on a command line and what is read: words of every kind of
// chunk, assignments and redirections, spelled out.
module ShellSpelling {
  import opened Basics
  import opened ShellSyntax
  import opened ShellRedirections
  import opened ShellLine
  import ShellQuoting

  predicate Stands(text: string, p: nat, part: string) {
    ShellQuoting.Stands(text, p, part)
  }

  // ---- words as they are written ----

  // Between double quotes.
  // A backslash before anything else, a line that goes on, and a dollar sign on
  // its own.
  datatype Inner = Literal(s: string) | Value(name: string, braced: bool) | Backslash | Joint | Sign

  datatype Chunk =
    | Plain(s: string)
    | Escaped(c: char)
    | Apostrophes(s: string)
    | Quotation(parts: seq<Inner>)
    | Variable(name: string, braced: bool)
    | Continued
    | DollarSign
    | Signs(c: char, sign: char)     // a character, and one that matters only elsewhere

  predicate IsLetter(c: char) {
    'a' <= c <= 'z' || 'A' <= c <= 'Z' || c == '_'
  }

  // The characters that mean nothing but themselves, wherever they stand.
  predicate IsPlain(c: char) {
    c !in "\0 \t\n\r<>'\"\\$|&;()*?[]{}`!#~="
  }

  // A dollar sign before any of these is more than itself.
  predicate BeginsParameter(c: char) {
    IsLetter(c) || '0' <= c <= '9' || c in "{($?!#@*"
  }

  predicate IsName(name: string) {
    && 0 < |name| <= 127 && IsLetter(name[0])
    && forall i | 0 <= i < |name| :: IsLetter(name[i]) || '0' <= name[i] <= '9'
  }

  function SpellVariable(name: string, braced: bool): string {
    if braced then "${" + name + "}" else "$" + name
  }

  // With a backslash before $ " \ and backquote.
  function SpellLiteral(s: string): string {
    if s == "" then ""
    else (if s[0] in "$\"\\`" then ['\\', s[0]] else [s[0]]) + SpellLiteral(s[1..])
  }

  function SpellInner(part: Inner): string {
    match part
    case Literal(s) => SpellLiteral(s)
    case Value(name, braced) => SpellVariable(name, braced)
    case Backslash => "\\"
    case Joint => "\\\n"
    case Sign => "$"
  }

  function SpellInners(parts: seq<Inner>): string {
    if parts == [] then "" else SpellInner(parts[0]) + SpellInners(parts[1..])
  }

  function SpellChunk(chunk: Chunk): string {
    match chunk
    case Plain(s) => s
    case Escaped(c) => ['\\', c]
    case Apostrophes(s) => "'" + (s + "'")
    case Quotation(parts) => "\"" + (SpellInners(parts) + "\"")
    case Variable(name, braced) => SpellVariable(name, braced)
    case Continued => "\\\n"
    case DollarSign => "$"
    case Signs(c, sign) => [c, sign]
  }

  function SpellWord(word: seq<Chunk>): string {
    if word == [] then "" else SpellChunk(word[0]) + SpellWord(word[1..])
  }

  // A name without braces ends where no more of a name follows.
  predicate NameEnds(after: string) {
    after == "" || !(IsLetter(after[0]) || '0' <= after[0] <= '9')
  }

  predicate GoodInner(part: Inner, after: string) {
    match part
    case Literal(s) => NUL !in s
    case Value(name, braced) => IsName(name) && (braced || NameEnds(after))
    case Backslash => after != "" && after[0] !in "$\"\\`\n"
    case Joint => true
    case Sign => after == "" || !BeginsParameter(after[0])
  }

  predicate GoodInners(parts: seq<Inner>) {
    parts == [] || (GoodInner(parts[0], SpellInners(parts[1..])) && GoodInners(parts[1..]))
  }

  predicate GoodChunk(chunk: Chunk, after: string) {
    match chunk
    case Plain(s) => forall i | 0 <= i < |s| :: IsPlain(s[i])
    case Escaped(c) => c != NUL && c != '\n'
    case Apostrophes(s) => NUL !in s && '\'' !in s
    case Quotation(parts) => GoodInners(parts)
    case Variable(name, braced) => IsName(name) && (braced || NameEnds(after))
    case Continued => true
    case DollarSign => after == "" || !BeginsParameter(after[0])
    case Signs(c, sign) => IsPlain(c) && (sign == '#' || sign == '~' || (sign == '=' && !IsNameChar(c)))
  }

  predicate GoodWord(word: seq<Chunk>) {
    word == [] || (GoodChunk(word[0], SpellWord(word[1..])) && GoodWord(word[1..]))
  }

  // Nothing follows the dollar sign that it ends with.
  predicate DollarLast(word: seq<Chunk>) {
    word != [] && ((word[0].DollarSign? && SpellWord(word[1..]) == "") || DollarLast(word[1..]))
  }

  // ---- what they expand to ----

  // An unset variable is empty.
  function Lookup(env: Env, name: string): string {
    if name in env then env[name] else ""
  }

  // Bytes that are never split at, and those that may be.
  function Fixed(s: string): (us: seq<Unit>)
    ensures |us| == |s|
  {
    seq(|s|, i requires 0 <= i < |s| => Byte(s[i], false))
  }

  function Loose(s: string, split: bool): (us: seq<Unit>)
    ensures |us| == |s|
  {
    seq(|s|, i requires 0 <= i < |s| => Byte(s[i], split))
  }

  function InnerUnits(part: Inner, env: Env): seq<Unit> {
    match part
    case Literal(s) => Fixed(s)
    case Value(name, _) => Fixed(Lookup(env, name))
    case Backslash => Fixed("\\")
    case Joint => []
    case Sign => Fixed("$")
  }

  function InnersUnits(parts: seq<Inner>, env: Env): seq<Unit> {
    if parts == [] then [] else InnerUnits(parts[0], env) + InnersUnits(parts[1..], env)
  }

  function ChunkUnits(chunk: Chunk, split: bool, env: Env): seq<Unit> {
    match chunk
    case Plain(s) => Fixed(s)
    case Escaped(c) => [Byte(c, false)]
    case Apostrophes(s) => [Quotes] + Fixed(s)
    case Quotation(parts) => [Quotes] + InnersUnits(parts, env)
    case Variable(name, _) => Loose(Lookup(env, name), split)
    case Continued => []
    case DollarSign => Fixed("$")
    case Signs(c, sign) => Fixed([c, sign])
  }

  function WordUnits(word: seq<Chunk>, split: bool, env: Env): seq<Unit> {
    if word == [] then [] else ChunkUnits(word[0], split, env) + WordUnits(word[1..], split, env)
  }

  // ---- and what fields they make ----

  // The pieces between bytes that separate; a piece that is quite empty is none.
  ghost function Together(pieces: seq<seq<Unit>>, seps: seq<char>): seq<Unit>
    requires |pieces| == |seps| + 1
  {
    if seps == [] then pieces[0] else pieces[0] + ([Byte(seps[0], true)] + Together(pieces[1..], seps[1..]))
  }

  predicate IsSpace(c: char) {
    c in " \t\n\r"
  }

  predicate Unsplit(us: seq<Unit>) {
    forall i | 0 <= i < |us| :: us[i].Byte? && us[i].splittable ==> !IsSpace(us[i].c)
  }

  // The characters of a piece.
  function Said(us: seq<Unit>): string {
    if us == [] then "" else (if us[0].Byte? then [us[0].c] else "") + Said(us[1..])
  }

  ghost function Told(pieces: seq<seq<Unit>>): seq<string> {
    if pieces == [] then [] else (if pieces[0] == [] then [] else [Said(pieces[0])]) + Told(pieces[1..])
  }

  lemma {:induction false} SaidIsText(us: seq<Unit>)
    ensures Said(us) == Text(us)
  {
    if us != [] {
      SaidIsText(us[1..]);
    }
  }

  lemma {:induction false} ToldIsKept(pieces: seq<seq<Unit>>)
    ensures Told(pieces) == Kept(pieces)
  {
    if pieces != [] {
      SaidIsText(pieces[0]);
      ToldIsKept(pieces[1..]);
    }
  }

  lemma {:induction false} PiecesOfFirst(piece: seq<Unit>, sep: char, rest: seq<Unit>)
    requires Unsplit(piece) && IsSpace(sep)
    ensures Pieces(piece + ([Byte(sep, true)] + rest)) == [piece] + Pieces(rest)
  {
    var us := piece + ([Byte(sep, true)] + rest);
    if piece == [] {
      assert us == [Byte(sep, true)] + rest && us[1..] == rest;
    } else {
      assert us[1..] == piece[1..] + ([Byte(sep, true)] + rest) && us[0] == piece[0];
      PiecesOfFirst(piece[1..], sep, rest);
      assert ([piece[1..]] + Pieces(rest))[1..] == Pieces(rest) && [piece[0]] + piece[1..] == piece;
    }
  }

  lemma {:induction false} PiecesTogether(pieces: seq<seq<Unit>>, seps: seq<char>)
    requires |pieces| == |seps| + 1 && (forall i | 0 <= i < |pieces| :: Unsplit(pieces[i]))
    requires forall i | 0 <= i < |seps| :: IsSpace(seps[i])
    ensures Pieces(Together(pieces, seps)) == pieces
  {
    if seps == [] {
      OnePiece(pieces[0]);
      assert pieces == [pieces[0]];
    } else {
      PiecesTogether(pieces[1..], seps[1..]);
      PiecesOfFirst(pieces[0], seps[0], Together(pieces[1..], seps[1..]));
      assert [pieces[0]] + pieces[1..] == pieces;
    }
  }

  // A word's fields, from where it is split.
  lemma FieldsTogether(pieces: seq<seq<Unit>>, seps: seq<char>)
    requires |pieces| == |seps| + 1 && (forall i | 0 <= i < |pieces| :: Unsplit(pieces[i]))
    requires forall i | 0 <= i < |seps| :: IsSpace(seps[i])
    ensures Fields(Together(pieces, seps)) == Told(pieces)
  {
    PiecesTogether(pieces, seps);
    ToldIsKept(pieces);
  }

  // ---- reading a word ----

  lemma Split(text: string, p: nat, a: string, b: string)
    requires Stands(text, p, a + b)
    ensures p + |a| + |b| <= |text| && Stands(text, p, a) && Stands(text, p + |a|, b)
    ensures a != "" ==> At(text, p) == a[0]
    ensures b != "" ==> At(text, p + |a|) == b[0]
  {
    ShellQuoting.StandsSplit(text, p, a, b);
  }

  lemma StandsAt(text: string, p: nat, part: string, i: nat)
    requires Stands(text, p, part) && i < |part|
    ensures p + i < |text| && At(text, p + i) == part[i]
  {
    assert text[p..p + |part|][i] == part[i];
  }

  lemma {:induction false} NameEndIs(text: string, p: nat, name: string)
    requires Stands(text, p, name) && !IsNameChar(At(text, p + |name|)) && forall i | 0 <= i < |name| :: IsNameChar(name[i])
    ensures NameEnd(text, p) == p + |name|
    decreases |name|
  {
    if name != "" {
      assert name == [name[0]] + name[1..];
      Split(text, p, [name[0]], name[1..]);
      NameEndIs(text, p + 1, name[1..]);
    }
  }

  lemma ReadVariable(text: string, p: nat, name: string, braced: bool)
    requires IsName(name) && Stands(text, p, SpellVariable(name, braced))
    requires braced || !IsNameChar(At(text, p + 1 + |name|))
    ensures At(text, p) == '$'
    ensures ParameterAt(text, p) == Ok(Found(ShellSyntax.Variable(name), p + |SpellVariable(name, braced)|))
  {
    hide Stands, NameEnd, ParameterAt, IsNameStart, IsNameChar, IsName;
    NameParts(name);
    if braced {
      var inside := name + "}";
      JoinText("${", name, "}");
      Split(text, p, "${", inside);
      Split(text, p + 2, name, "}");
      StandsAt(text, p, "${", 1);
      ReadName(text, p + 2, name);
      AtBraced(text, p, name);
    } else {
      Split(text, p, "$", name);
      ReadName(text, p + 1, name);
      AtUnbraced(text, p, name);
    }
  }

  lemma NameParts(name: string)
    requires IsName(name)
    ensures 0 < |name| <= 127 && !IsNameChar('}')
  {
  }

  lemma ReadName(text: string, p: nat, name: string)
    requires IsName(name) && Stands(text, p, name) && !IsNameChar(At(text, p + |name|))
    ensures p + |name| <= |text| && NameEnd(text, p) == p + |name| && text[p..p + |name|] == name
    ensures IsNameStart(At(text, p))
  {
    StandsAt(text, p, name, 0);
    NameEndIs(text, p, name);
  }

  lemma AtBraced(text: string, p: nat, name: string)
    requires 0 < |name| <= 127 && p + 2 + |name| < |text|
    requires text[p] == '$' && text[p + 1] == '{' && text[p + 2 + |name|] == '}'
    requires NameEnd(text, p + 2) == p + 2 + |name| && text[p + 2..p + 2 + |name|] == name && IsNameStart(At(text, p + 2))
    ensures ParameterAt(text, p) == Ok(Found(ShellSyntax.Variable(name), p + 3 + |name|))
  {
  }

  lemma AtUnbraced(text: string, p: nat, name: string)
    requires 0 < |name| <= 127 && p + 1 + |name| <= |text| && text[p] == '$'
    requires NameEnd(text, p + 1) == p + 1 + |name| && text[p + 1..p + 1 + |name|] == name && IsNameStart(At(text, p + 1))
    ensures ParameterAt(text, p) == Ok(Found(ShellSyntax.Variable(name), p + 1 + |name|))
  {
  }

  // The end of a name, by what is written after it.
  lemma EndsByAfter(text: string, p: nat, after: string, more: string)
    requires Stands(text, p, after + more) && NameEnds(after) && more != "" && !IsNameChar(more[0])
    ensures !IsNameChar(At(text, p))
  {
    if after == "" {
      assert after + more == more;
    }
    StandsAt(text, p, after + more, 0);
  }

  lemma {:induction false} ReadLiteral(text: string, p: nat, s: string, before: seq<Unit>, env: Env)
    requires NUL !in s && Stands(text, p, SpellLiteral(s))
    ensures p + |SpellLiteral(s)| <= |text|
    ensures Double(text, p, before, env) == Double(text, p + |SpellLiteral(s)|, before + Fixed(s), env)
    decreases |s|
  {
    hide Double, SpellLiteral, Stands, Fixed;
    SpellLiteralFirst(s);
    FixedFirst(s);
    if s == "" {
      StandsInside(text, p, "");
      assert before + [] == before;
    } else {
      var first := if s[0] in "$\"\\`" then ['\\', s[0]] else [s[0]];
      var one := [Byte(s[0], false)];
      Split(text, p, first, SpellLiteral(s[1..]));
      StandsAt(text, p, first, |first| - 1);
      OneLiteral(text, p, s[0], before, env);
      ReadLiteral(text, p + |first|, s[1..], before + one, env);
      JoinUnits(before, one, Fixed(s[1..]));
    }
  }

  lemma FixedFirst(s: string)
    ensures Fixed(s) == if s == "" then [] else [Byte(s[0], false)] + Fixed(s[1..])
  {
  }

  lemma SpellLiteralFirst(s: string)
    ensures s == "" ==> SpellLiteral(s) == ""
    ensures s != "" ==>
      SpellLiteral(s) == (if s[0] in "$\"\\`" then ['\\', s[0]] else [s[0]]) + SpellLiteral(s[1..])
  {
  }

  lemma OneLiteral(text: string, p: nat, c: char, before: seq<Unit>, env: Env)
    requires c != NUL && p < |text|
    requires if c in "$\"\\`" then p + 1 < |text| && text[p] == '\\' && text[p + 1] == c else text[p] == c
    ensures var q := if c in "$\"\\`" then p + 2 else p + 1;
      Double(text, p, before, env) == Double(text, q, before + [Byte(c, false)], env)
  {
  }

  lemma {:induction false} ReadInners(text: string, p: nat, parts: seq<Inner>, before: seq<Unit>, env: Env)
    requires GoodInners(parts) && Stands(text, p, SpellInners(parts) + "\"")
    ensures Double(text, p, before, env) == Ok(Found(before + InnersUnits(parts, env), p + |SpellInners(parts)| + 1))
    decreases |parts|
  {
    hide Double, Stands, SpellInner, InnerUnits, GoodInner;
    if parts == [] {
      assert SpellInners(parts) + "\"" == "\"" && before + InnersUnits(parts, env) == before;
      assert "" + "\"" == "\"";
      Split(text, p, "", "\"");
      AtClosing(text, p, before, env);
    } else {
      hide SpellInners, InnersUnits;
      InnersFirst(parts, env);
      var first, rest := SpellInner(parts[0]), SpellInners(parts[1..]);
      var us := InnerUnits(parts[0], env);
      JoinText(first, rest, "\"");
      Split(text, p, first, rest + "\"");
      ReadInner(text, p, parts[0], rest, before, env);
      ReadInners(text, p + |first|, parts[1..], before + us, env);
      JoinUnits(before, us, InnersUnits(parts[1..], env));
    }
  }

  lemma InnersFirst(parts: seq<Inner>, env: Env)
    requires parts != []
    ensures SpellInners(parts) == SpellInner(parts[0]) + SpellInners(parts[1..])
    ensures InnersUnits(parts, env) == InnerUnits(parts[0], env) + InnersUnits(parts[1..], env)
  {
  }

  lemma JoinUnits(a: seq<Unit>, b: seq<Unit>, c: seq<Unit>)
    ensures a + b + c == a + (b + c)
  {
  }

  lemma JoinText(a: string, b: string, c: string)
    ensures a + b + c == a + (b + c)
  {
  }

  lemma AtClosing(text: string, p: nat, before: seq<Unit>, env: Env)
    requires p < |text| && text[p] == '"'
    ensures Double(text, p, before, env) == Ok(Found(before, p + 1))
  {
  }

  lemma ReadInner(text: string, p: nat, part: Inner, after: string, before: seq<Unit>, env: Env)
    requires GoodInner(part, after) && Stands(text, p, SpellInner(part)) && Stands(text, p + |SpellInner(part)|, after + "\"")
    ensures p + |SpellInner(part)| <= |text|
    ensures Double(text, p, before, env) == Double(text, p + |SpellInner(part)|, before + InnerUnits(part, env), env)
  {
    hide Double, Stands, ParameterAt, SpellLiteral, IsName, Lookup, NameEnds;
    match part
    case Literal(s) => ReadLiteral(text, p, s, before, env);
    case Value(name, braced) =>
      if !braced {
        EndsByAfter(text, p + 1 + |name|, after, "\"");
      }
      ReadVariable(text, p, name, braced);
      SubstituteInside(text, p, name, p + |SpellVariable(name, braced)|, before, env);
    case Backslash =>
      NextInside(text, p, "\\", after);
      LoneBackslash(text, p, before, env);
    case Joint =>
      StandsAt(text, p, "\\\n", 0);
      StandsAt(text, p, "\\\n", 1);
      assert before + [] == before;
      GoesOnInside(text, p, before, env);
    case Sign =>
      NextInside(text, p, "$", after);
      SignInside(text, p, before, env);
  }

  lemma NextInside(text: string, p: nat, part: string, after: string)
    requires |part| == 1 && Stands(text, p, part) && Stands(text, p + 1, after + "\"")
    ensures p + 1 < |text| && text[p] == part[0] && text[p + 1] == if after == "" then '"' else after[0]
  {
    StandsAt(text, p, part, 0);
    StandsAt(text, p + 1, after + "\"", 0);
  }

  lemma LoneBackslash(text: string, p: nat, before: seq<Unit>, env: Env)
    requires p + 1 < |text| && text[p] == '\\' && text[p + 1] !in "$\"\\`\n"
    ensures Double(text, p, before, env) == Double(text, p + 1, before + Fixed("\\"), env)
  {
    assert Fixed("\\") == [Byte('\\', false)];
  }

  lemma GoesOnInside(text: string, p: nat, before: seq<Unit>, env: Env)
    requires p + 1 < |text| && text[p] == '\\' && text[p + 1] == '\n'
    ensures Double(text, p, before, env) == Double(text, p + 2, before, env)
  {
  }

  lemma OnlyDollar(text: string, p: nat)
    requires p < |text| && text[p] == '$' && !BeginsParameter(At(text, p + 1))
    ensures ParameterAt(text, p) == Ok(Found(Dollar, p + 1))
  {
  }

  lemma SignInside(text: string, p: nat, before: seq<Unit>, env: Env)
    requires p + 1 < |text| && text[p] == '$' && !BeginsParameter(text[p + 1])
    ensures Double(text, p, before, env) == Double(text, p + 1, before + Fixed("$"), env)
  {
    hide ParameterAt;
    OnlyDollar(text, p);
    assert Fixed("$") == [Byte('$', false)];
  }

  lemma SubstituteInside(text: string, p: nat, name: string, q: nat, before: seq<Unit>, env: Env)
    requires p < |text| && At(text, p) == '$' && ParameterAt(text, p) == Ok(Found(ShellSyntax.Variable(name), q))
    ensures q <= |text| && Double(text, p, before, env) == Double(text, q, before + Fixed(Lookup(env, name)), env)
  {
    assert Expansion(env, ShellSyntax.Variable(name), false) == Fixed(Lookup(env, name));
  }

  lemma {:induction false} ReadApostrophes(text: string, p: nat, s: string, before: seq<Unit>)
    requires NUL !in s && '\'' !in s && Stands(text, p, s + "'")
    ensures Single(text, p, before) == Ok(Found(before + Fixed(s), p + |s| + 1))
    decreases |s|
  {
    StandsAt(text, p, s + "'", 0);
    if s == "" {
      assert before + Fixed(s) == before;
    } else {
      var one := [Byte(s[0], false)];
      assert s + "'" == [s[0]] + (s[1..] + "'");
      Split(text, p, [s[0]], s[1..] + "'");
      ReadApostrophes(text, p + 1, s[1..], before + one);
      assert (before + one) + Fixed(s[1..]) == before + Fixed(s);
    }
  }

  lemma {:induction false} ReadPlain(text: string, p: nat, s: string, before: seq<Unit>, split: bool, env: Env)
    requires Stands(text, p, s) && forall i | 0 <= i < |s| :: IsPlain(s[i])
    ensures p + |s| <= |text|
    ensures Word(text, p, before, split, env) == Word(text, p + |s|, before + Fixed(s), split, env)
    decreases |s|
  {
    hide Word;
    if s == "" {
      assert before + Fixed(s) == before;
    } else {
      var one := [Byte(s[0], false)];
      assert s == [s[0]] + s[1..];
      Split(text, p, [s[0]], s[1..]);
      OnePlain(text, p, before, split, env);
      ReadPlain(text, p + 1, s[1..], before + one, split, env);
      assert (before + one) + Fixed(s[1..]) == before + Fixed(s);
    }
  }

  lemma OnePlain(text: string, p: nat, before: seq<Unit>, split: bool, env: Env)
    requires p < |text| && IsPlain(text[p])
    ensures Word(text, p, before, split, env) == Word(text, p + 1, before + [Byte(text[p], false)], split, env)
  {
  }

  // One chunk is read as what it expands to, whatever came before it.
  lemma ReadChunk(text: string, p: nat, chunk: Chunk, after: string, before: seq<Unit>, split: bool, env: Env)
    requires GoodChunk(chunk, after) && Stands(text, p, SpellChunk(chunk)) && Stands(text, p + |SpellChunk(chunk)|, after)
    requires !IsNameChar(At(text, p + |SpellChunk(chunk)| + |after|))
    requires chunk.DollarSign? && after == "" ==> !BeginsParameter(At(text, p + 1))
    ensures p + |SpellChunk(chunk)| <= |text|
    ensures Word(text, p, before, split, env)
         == Word(text, p + |SpellChunk(chunk)|, before + ChunkUnits(chunk, split, env), split, env)
  {
    hide Word, Single, Double, Stands, ParameterAt, IsPlain, SpellInners, InnersUnits, GoodInners, IsName, Lookup, NameEnds,
      BeginsParameter;
    match chunk
    case Plain(s) => ReadPlain(text, p, s, before, split, env);
    case Escaped(c) =>
      StandsAt(text, p, ['\\', c], 0);
      StandsAt(text, p, ['\\', c], 1);
      AtBackslash(text, p, c, before, split, env);
    case Apostrophes(s) => ReadApostrophesChunk(text, p, s, before, split, env);
    case Quotation(parts) => ReadQuotation(text, p, parts, before, split, env);
    case Variable(name, braced) =>
      if !braced {
        NameIsOver(text, p + 1 + |name|, after);
      }
      ReadVariable(text, p, name, braced);
      Substitute(text, p, name, p + |SpellVariable(name, braced)|, before, split, env);
    case Continued => ReadSign(text, p, chunk, after, before, split, env);
    case DollarSign => ReadSign(text, p, chunk, after, before, split, env);
    case Signs(_, _) => ReadSign(text, p, chunk, after, before, split, env);
  }

  lemma ReadSign(text: string, p: nat, chunk: Chunk, after: string, before: seq<Unit>, split: bool, env: Env)
    requires chunk.Continued? || chunk.DollarSign? || chunk.Signs?
    requires GoodChunk(chunk, after) && Stands(text, p, SpellChunk(chunk)) && Stands(text, p + |SpellChunk(chunk)|, after)
    requires chunk.DollarSign? && after == "" ==> !BeginsParameter(At(text, p + 1))
    ensures p + |SpellChunk(chunk)| <= |text|
    ensures Word(text, p, before, split, env)
         == Word(text, p + |SpellChunk(chunk)|, before + ChunkUnits(chunk, split, env), split, env)
  {
    hide Word, Stands, IsPlain, BeginsParameter, Fixed;
    var spelled := SpellChunk(chunk);
    StandsAt(text, p, spelled, 0);
    match chunk
    case Continued =>
      StandsAt(text, p, spelled, 1);
      assert before + [] == before;
      GoesOn(text, p, before, split, env);
    case DollarSign =>
      if after != "" {
        StandsAt(text, p + 1, after, 0);
      }
      AtSign(text, p, before, split, env);
    case Signs(c, sign) =>
      StandsAt(text, p, spelled, 1);
      TwoSigns(text, p, before, split, env);
  }

  lemma GoesOn(text: string, p: nat, before: seq<Unit>, split: bool, env: Env)
    requires p + 1 < |text| && text[p] == '\\' && text[p + 1] == '\n'
    ensures Word(text, p, before, split, env) == Word(text, p + 2, before, split, env)
  {
  }

  lemma AtSign(text: string, p: nat, before: seq<Unit>, split: bool, env: Env)
    requires p < |text| && text[p] == '$' && !BeginsParameter(At(text, p + 1))
    ensures Word(text, p, before, split, env) == Word(text, p + 1, before + Fixed("$"), split, env)
  {
    hide ParameterAt;
    OnlyDollar(text, p);
    assert Fixed("$") == [Byte('$', false)];
  }

  // After a character of its own, a tilde is one as well.
  lemma TwoSigns(text: string, p: nat, before: seq<Unit>, split: bool, env: Env)
    requires p + 1 < |text| && IsPlain(text[p]) && (text[p + 1] == '#' || text[p + 1] == '~' || text[p + 1] == '=')
    ensures Word(text, p, before, split, env) == Word(text, p + 2, before + Fixed([text[p], text[p + 1]]), split, env)
  {
    hide ShellSyntax.Open, Word;
    var one, two := [Byte(text[p], false)], [Byte(text[p + 1], false)];
    OnePlain(text, p, before, split, env);
    OneUnit(before, one[0]);
    SecondSign(text, p + 1, before + one, split, env);
    assert Fixed([text[p], text[p + 1]]) == one + two;
    JoinUnits(before, one, two);
  }

  lemma SecondSign(text: string, p: nat, before: seq<Unit>, split: bool, env: Env)
    requires p < |text| && (text[p] == '#' || text[p] == '=' || (text[p] == '~' && ShellSyntax.Open(before) != []))
    ensures Word(text, p, before, split, env) == Word(text, p + 1, before + [Byte(text[p], false)], split, env)
  {
    hide ShellSyntax.Open;
  }

  lemma ReadApostrophesChunk(text: string, p: nat, s: string, before: seq<Unit>, split: bool, env: Env)
    requires NUL !in s && '\'' !in s && Stands(text, p, SpellChunk(Apostrophes(s)))
    ensures p + |s| + 2 <= |text|
    ensures Word(text, p, before, split, env) == Word(text, p + |s| + 2, before + ([Quotes] + Fixed(s)), split, env)
  {
    hide Word, Single, Stands;
    Split(text, p, "'", s + "'");
    ReadApostrophes(text, p + 1, s, before + [Quotes]);
    AtApostrophe(text, p, before, before + [Quotes] + Fixed(s), p + |s| + 2, split, env);
    JoinUnits(before, [Quotes], Fixed(s));
  }

  lemma ReadQuotation(text: string, p: nat, parts: seq<Inner>, before: seq<Unit>, split: bool, env: Env)
    requires GoodInners(parts) && Stands(text, p, SpellChunk(Quotation(parts)))
    ensures p + |SpellInners(parts)| + 2 <= |text|
    ensures Word(text, p, before, split, env)
         == Word(text, p + |SpellInners(parts)| + 2, before + ([Quotes] + InnersUnits(parts, env)), split, env)
  {
    hide Word, Double, Stands, SpellInners, InnersUnits, GoodInners;
    Split(text, p, "\"", SpellInners(parts) + "\"");
    ReadInners(text, p + 1, parts, before + [Quotes], env);
    AtQuotation(text, p, before, before + [Quotes] + InnersUnits(parts, env), p + |SpellInners(parts)| + 2, split, env);
    JoinUnits(before, [Quotes], InnersUnits(parts, env));
  }

  lemma NameIsOver(text: string, p: nat, after: string)
    requires Stands(text, p, after) && NameEnds(after) && !IsNameChar(At(text, p + |after|))
    ensures !IsNameChar(At(text, p))
  {
    if after != "" {
      StandsAt(text, p, after, 0);
    }
  }

  lemma AtBackslash(text: string, p: nat, c: char, before: seq<Unit>, split: bool, env: Env)
    requires p + 1 < |text| && text[p] == '\\' && text[p + 1] == c && c != NUL && c != '\n'
    ensures Word(text, p, before, split, env) == Word(text, p + 2, before + [Byte(c, false)], split, env)
  {
  }

  lemma AtApostrophe(text: string, p: nat, before: seq<Unit>, us: seq<Unit>, q: nat, split: bool, env: Env)
    requires p < |text| && text[p] == '\'' && Single(text, p + 1, before + [Quotes]) == Ok(Found(us, q))
    ensures q <= |text| && Word(text, p, before, split, env) == Word(text, q, us, split, env)
  {
  }

  lemma AtQuotation(text: string, p: nat, before: seq<Unit>, us: seq<Unit>, q: nat, split: bool, env: Env)
    requires p < |text| && text[p] == '"' && Double(text, p + 1, before + [Quotes], env) == Ok(Found(us, q))
    ensures q <= |text| && Word(text, p, before, split, env) == Word(text, q, us, split, env)
  {
  }

  lemma Substitute(text: string, p: nat, name: string, q: nat, before: seq<Unit>, split: bool, env: Env)
    requires p < |text| && At(text, p) == '$' && ParameterAt(text, p) == Ok(Found(ShellSyntax.Variable(name), q))
    ensures q <= |text| && Word(text, p, before, split, env) == Word(text, q, before + Loose(Lookup(env, name), split), split, env)
  {
    assert Expansion(env, ShellSyntax.Variable(name), split) == Loose(Lookup(env, name), split);
  }

  // Any number of chunks.
  lemma {:induction false} OverChunks(text: string, p: nat, word: seq<Chunk>, before: seq<Unit>, split: bool, env: Env)
    requires GoodWord(word) && Stands(text, p, SpellWord(word)) && !IsNameChar(At(text, p + |SpellWord(word)|))
    requires DollarLast(word) ==> !BeginsParameter(At(text, p + |SpellWord(word)|))
    ensures p + |SpellWord(word)| <= |text|
    ensures Word(text, p, before, split, env)
         == Word(text, p + |SpellWord(word)|, before + WordUnits(word, split, env), split, env)
    decreases |word|
  {
    hide Stands, Word, SpellChunk, ChunkUnits, GoodChunk, BeginsParameter;
    if word == [] {
      StandsInside(text, p, "");
      assert before + WordUnits(word, split, env) == before;
    } else {
      var first, rest := SpellChunk(word[0]), SpellWord(word[1..]);
      var us := ChunkUnits(word[0], split, env);
      Split(text, p, first, rest);
      DollarSize(word[0]);
      ReadChunk(text, p, word[0], rest, before, split, env);
      OverChunks(text, p + |first|, word[1..], before + us, split, env);
      JoinUnits(before, us, WordUnits(word[1..], split, env));
    }
  }

  lemma DollarSize(chunk: Chunk)
    ensures chunk.DollarSign? ==> |SpellChunk(chunk)| == 1
  {
  }

  lemma StandsInside(text: string, p: nat, part: string)
    requires Stands(text, p, part)
    ensures p + |part| <= |text|
  {
  }

  lemma WordIsOver(text: string, p: nat, before: seq<Unit>, split: bool, env: Env)
    requires p <= |text| && EndsWord(At(text, p))
    ensures Word(text, p, before, split, env) == Ok(Found(before, p))
  {
  }

  // Main result for words: what is written in chunks is read as what they
  // expand to, and ends where it ends.
  lemma ReadWord(text: string, p: nat, word: seq<Chunk>, split: bool, env: Env)
    requires GoodWord(word) && Stands(text, p, SpellWord(word)) && EndsWord(At(text, p + |SpellWord(word)|))
    ensures Word(text, p, [], split, env) == Ok(Found(WordUnits(word, split, env), p + |SpellWord(word)|))
  {
    hide Word, WordUnits, SpellWord, GoodWord, Stands, DollarLast, BeginsParameter;
    EndsNames(At(text, p + |SpellWord(word)|));
    OverChunks(text, p, word, [], split, env);
    assert [] + WordUnits(word, split, env) == WordUnits(word, split, env);
    WordIsOver(text, p + |SpellWord(word)|, WordUnits(word, split, env), split, env);
  }

  lemma EndsNames(c: char)
    requires EndsWord(c)
    ensures !IsNameChar(c) && !BeginsParameter(c)
  {
  }

  // ---- single words ----

  lemma {:induction false} SaidLoose(s: string, split: bool)
    ensures Said(Loose(s, split)) == s
  {
    if s != "" {
      assert Loose(s, split)[1..] == Loose(s[1..], split);
      SaidLoose(s[1..], split);
    }
  }

  lemma FieldsOfOne(us: seq<Unit>)
    requires Unsplit(us)
    ensures Fields(us) == if us == [] then [] else [Said(us)]
  {
    assert Together([us], []) == us && [us][1..] == [];
    FieldsTogether([us], []);
  }

  // A variable in double quotes is one field: its value, also if it is empty.
  lemma QuotedVariable(name: string, braced: bool, split: bool, env: Env)
    ensures Fields(WordUnits([Quotation([Value(name, braced)])], split, env)) == [if name in env then env[name] else ""]
  {
    var v := Lookup(env, name);
    var us := [Quotes] + Fixed(v);
    OneInner(Value(name, braced), env);
    OneChunk(Quotation([Value(name, braced)]), split, env);
    assert ChunkUnits(Quotation([Value(name, braced)]), split, env) == us;
    assert us[1..] == Fixed(v) && Fixed(v) == Loose(v, false);
    SaidLoose(v, false);
    assert us[0] == Quotes && Said(us) == "" + Said(us[1..]);
    FieldsOfOne(us);
    assert "" + v == v;
  }

  lemma OneInner(part: Inner, env: Env)
    ensures InnersUnits([part], env) == InnerUnits(part, env)
  {
    assert [part][1..] == [] && InnerUnits(part, env) + [] == InnerUnits(part, env);
  }

  lemma OneChunk(chunk: Chunk, split: bool, env: Env)
    ensures WordUnits([chunk], split, env) == ChunkUnits(chunk, split, env)
  {
    assert [chunk][1..] == [] && ChunkUnits(chunk, split, env) + [] == ChunkUnits(chunk, split, env);
  }

  // Without quotes and not to be split, its value is one field, or none if it
  // is empty.
  lemma UnsplitVariable(name: string, braced: bool, env: Env)
    ensures Fields(WordUnits([Chunk.Variable(name, braced)], false, env))
         == if name !in env || env[name] == "" then [] else [env[name]]
  {
    var v := Lookup(env, name);
    OneChunk(Chunk.Variable(name, braced), false, env);
    SaidLoose(v, false);
    FieldsOfOne(Loose(v, false));
  }

  // Runs with a blank between any two; runs may be empty.
  function Spaced(runs: seq<string>, seps: seq<char>): string
    requires |runs| == |seps| + 1
  {
    if seps == [] then runs[0] else runs[0] + ([seps[0]] + Spaced(runs[1..], seps[1..]))
  }

  function NonEmpty(runs: seq<string>): seq<string> {
    if runs == [] then [] else (if runs[0] == "" then [] else [runs[0]]) + NonEmpty(runs[1..])
  }

  predicate NoSpace(s: string) {
    forall i | 0 <= i < |s| :: !IsSpace(s[i])
  }

  ghost function Loosened(runs: seq<string>): (pieces: seq<seq<Unit>>)
    ensures |pieces| == |runs|
  {
    seq(|runs|, i requires 0 <= i < |runs| => Loose(runs[i], true))
  }

  lemma {:induction false} LooseTogether(runs: seq<string>, seps: seq<char>)
    requires |runs| == |seps| + 1
    ensures Loose(Spaced(runs, seps), true) == Together(Loosened(runs), seps)
  {
    if seps != [] {
      LooseTogether(runs[1..], seps[1..]);
      assert Loosened(runs)[1..] == Loosened(runs[1..]);
      var rest := Spaced(runs[1..], seps[1..]);
      LooseJoin(runs[0], seps[0], rest);
    }
  }

  lemma LooseJoin(a: string, c: char, b: string)
    ensures Loose(a + ([c] + b), true) == Loose(a, true) + ([Byte(c, true)] + Loose(b, true))
  {
  }

  lemma {:induction false} ToldLoose(runs: seq<string>)
    ensures Told(Loosened(runs)) == NonEmpty(runs)
  {
    if runs != [] {
      ToldLoose(runs[1..]);
      assert Loosened(runs)[1..] == Loosened(runs[1..]);
      SaidLoose(runs[0], true);
    }
  }

  // As a command word, an unquoted variable gives the runs of its value that
  // are set apart by blanks; and so none if it is unset, empty or blank.
  lemma SplitVariable(name: string, braced: bool, env: Env, runs: seq<string>, seps: seq<char>)
    requires |runs| == |seps| + 1 && (forall i | 0 <= i < |seps| :: IsSpace(seps[i]))
    requires forall i | 0 <= i < |runs| :: NoSpace(runs[i])
    requires (if name in env then env[name] else "") == Spaced(runs, seps)
    ensures Fields(WordUnits([Chunk.Variable(name, braced)], true, env)) == NonEmpty(runs)
  {
    var v := Lookup(env, name);
    OneChunk(Chunk.Variable(name, braced), true, env);
    LooseTogether(runs, seps);
    var pieces := Loosened(runs);
    forall i | 0 <= i < |pieces|
      ensures Unsplit(pieces[i])
    {
      assert NoSpace(runs[i]);
    }
    FieldsTogether(pieces, seps);
    ToldLoose(runs);
  }

  // ---- lines as they are written ----

  datatype How = Reads | Truncates | Appends

  datatype Part =
    | Argument(word: seq<Chunk>)
    | Assign(name: string, word: seq<Chunk>)
    | Open(number: string, how: How, gap: string, target: seq<Chunk>)
    | Duplicate(number: string, input: bool, source: string)

  // After some blanks.
  datatype Piece = Piece(gap: string, part: Part)

  function SpellPart(part: Part): string {
    match part
    case Argument(word) => SpellWord(word)
    case Assign(name, word) => name + ("=" + SpellWord(word))
    case Open(number, how, gap, target) =>
      number + ((if how.Reads? then "<" else if how.Truncates? then ">" else ">>") + (gap + SpellWord(target)))
    case Duplicate(number, input, source) => number + ((if input then "<&" else ">&") + source)
  }

  function SpellLine(line: seq<Piece>): string {
    if line == [] then "" else line[0].gap + (SpellPart(line[0].part) + SpellLine(line[1..]))
  }

  predicate Spaces(s: string) {
    forall i | 0 <= i < |s| :: IsSpace(s[i])
  }

  predicate Digits(s: string) {
    forall i | 0 <= i < |s| :: '0' <= s[i] <= '9'
  }

  function Worth(digits: string): nat
    requires Digits(digits)
  {
    if digits == "" then 0 else Worth(digits[..|digits| - 1]) * 10 + (digits[|digits| - 1] as int - '0' as int)
  }

  predicate IsNumber(s: string) {
    Digits(s) && Worth(s) <= 1024
  }

  predicate GoodPart(part: Part, env: Env) {
    match part
    case Argument(word) => GoodWord(word) && SpellWord(word) != ""
    case Assign(name, word) => IsName(name) && GoodWord(word)
    case Open(number, _, gap, target) =>
      IsNumber(number) && Spaces(gap) && GoodWord(target) && Said(WordUnits(target, false, env)) != ""
    case Duplicate(number, _, source) => IsNumber(number) && IsNumber(source) && source != ""
  }

  // A redirection without a number may follow at once, unless what comes before
  // it could be its number.
  predicate Abuts(before: Part, part: Part) {
    && ((part.Open? && part.number == "") || (part.Duplicate? && part.number == ""))
    && (before.Argument? ==> !Digits(SpellWord(before.word)))
  }

  // Other parts are set apart by blanks, and assignments come first.
  predicate GoodLine(line: seq<Piece>, env: Env) {
    && (forall i | 0 <= i < |line| :: Spaces(line[i].gap) && GoodPart(line[i].part, env))
    && (forall i | 0 < i < |line| :: line[i].gap != "" || Abuts(line[i - 1].part, line[i].part))
    && (forall i, j | 0 <= i < j < |line| :: !(line[i].part.Argument? && line[j].part.Assign?))
  }

  // What a part says.
  function Says(so: Parsed, part: Part, env: Env): Parsed
    requires GoodPart(part, env)
  {
    match part
    case Argument(word) => so.(args := so.args + Fields(WordUnits(word, true, env)))
    case Assign(name, word) => so.(assigns := so.assigns + [name + "=" + Said(WordUnits(word, false, env))])
    case Open(number, how, _, target) =>
      var fd := if number != "" then Worth(number) else if how.Reads? then 0 else 1;
      so.(redirects := so.redirects + [File(fd, how.Reads?, how.Appends?, Said(WordUnits(target, false, env)))])
    case Duplicate(number, input, source) =>
      var fd := if number != "" then Worth(number) else if input then 0 else 1;
      so.(redirects := so.redirects + [Dup(fd, input, Worth(source))])
  }

  function SaysAll(so: Parsed, line: seq<Piece>, env: Env): Parsed
    requires GoodLine(line, env)
    decreases |line|
  {
    if line == [] then so else SaysAll(Says(so, line[0].part, env), line[1..], env)
  }

  // ---- reading a line ----

  // A part is over at a blank, at an operator or at the end.
  predicate Over(text: string, q: nat) {
    q == |text| || (q < |text| && (IsSpace(text[q]) || text[q] == '<' || text[q] == '>'))
  }

  predicate AtOperatorSign(text: string, q: nat) {
    q < |text| && (text[q] == '<' || text[q] == '>')
  }

  // A line of parts is over at a blank or at the end.
  predicate Ends(text: string, q: nat) {
    q == |text| || (q < |text| && IsSpace(text[q]))
  }

  lemma {:induction false} OverGap(text: string, p: nat, gap: string, rest: string)
    requires Spaces(gap) && Stands(text, p, gap + rest) && rest != "" && !IsSpace(rest[0])
    ensures SkipBlanks(text, p) == p + |gap|
    decreases |gap|
  {
    if gap == "" {
      assert gap + rest == rest;
      StandsAt(text, p, rest, 0);
    } else {
      JoinText([gap[0]], gap[1..], rest);
      assert gap == [gap[0]] + gap[1..];
      Split(text, p, [gap[0]], gap[1..] + rest);
      OverGap(text, p + 1, gap[1..], rest);
    }
  }

  // The first character of a spelled word that is not empty.
  lemma {:induction false} FirstOfWord(word: seq<Chunk>)
    requires GoodWord(word) && SpellWord(word) != ""
    ensures IsPlain(SpellWord(word)[0]) || SpellWord(word)[0] in "\\'\"$"
  {
    if word[0].Plain? && word[0].s == "" {
      assert SpellWord(word) == "" + SpellWord(word[1..]);
      FirstOfWord(word[1..]);
    } else {
      assert SpellChunk(word[0]) != "" && SpellWord(word)[0] == SpellChunk(word[0])[0];
    }
  }

  // Neither an equals sign nor an operator.
  predicate Stops(c: char) {
    c != '=' && c != '<' && c != '>'
  }

  lemma FirstOfChunk(chunk: Chunk, after: string)
    requires !chunk.Plain? && GoodChunk(chunk, after)
    ensures SpellChunk(chunk) != "" && Stops(SpellChunk(chunk)[0])
    ensures IsNameChar(SpellChunk(chunk)[0]) ==>
      |SpellChunk(chunk)| == 2 && Stops(SpellChunk(chunk)[1]) && !IsNameChar(SpellChunk(chunk)[1])
  {
  }

  // A name or a number at the beginning of a word is not followed by these.
  lemma {:induction false} InWord(text: string, p: nat, word: seq<Chunk>, i: nat)
    requires GoodWord(word) && Stands(text, p, SpellWord(word))
    requires i == p + |SpellWord(word)| ==> Stops(At(text, i))
    requires p <= i <= p + |SpellWord(word)| && forall j | p <= j < i :: IsNameChar(At(text, j))
    ensures Stops(At(text, i))
    decreases |word|
  {
    hide Stands, SpellChunk, SpellWord, GoodChunk, Stops, IsNameChar, IsPlain;
    if word == [] {
      NoWord();
    } else {
      WordFirst(word);
      var first, rest := SpellChunk(word[0]), SpellWord(word[1..]);
      Split(text, p, first, rest);
      if word[0].Plain? {
        if i < p + |first| {
          StandsAt(text, p, first, i - p);
          PlainStops(word[0], rest, i - p);
        } else {
          InWord(text, p + |first|, word[1..], i);
        }
      } else {
        FirstOfChunk(word[0], rest);
        StandsAt(text, p, first, 0);
        if i > p {
          StandsAt(text, p, first, 1);
        }
      }
    }
  }

  lemma NoWord()
    ensures SpellWord([]) == ""
  {
  }

  lemma WordFirst(word: seq<Chunk>)
    requires word != [] && GoodWord(word)
    ensures SpellWord(word) == SpellChunk(word[0]) + SpellWord(word[1..])
    ensures GoodChunk(word[0], SpellWord(word[1..])) && GoodWord(word[1..])
  {
  }

  lemma PlainStops(chunk: Chunk, after: string, i: nat)
    requires chunk.Plain? && GoodChunk(chunk, after) && i < |SpellChunk(chunk)|
    ensures Stops(SpellChunk(chunk)[i])
  {
  }

  lemma OverStops(text: string, q: nat)
    requires Over(text, q)
    ensures q <= |text| && At(text, q) != '=' && !IsNameChar(At(text, q)) && !IsDigit(At(text, q)) && EndsWord(At(text, q))
    ensures At(text, q) == '<' || At(text, q) == '>' <==> AtOperatorSign(text, q)
    ensures !AtOperatorSign(text, q) ==> Stops(At(text, q))
  {
  }

  // A word is neither a redirection nor an assignment.
  lemma WordIsPlain(text: string, p: nat, word: seq<Chunk>)
    requires GoodWord(word) && Stands(text, p, SpellWord(word)) && p + |SpellWord(word)| <= |text|
    requires var c := At(text, p + |SpellWord(word)|);
      c != '=' && !IsNameChar(c) && !IsDigit(c) && ((c == '<' || c == '>') ==> !Digits(SpellWord(word)))
    ensures !IsRedirectStart(text, p) && AssignmentLength(text, p) == 0
  {
    hide Stands, SpellWord, GoodWord, Stops, IsNameChar, IsDigit, Digits;
    StopsWell();
    var q := p + |SpellWord(word)|;
    var e, d := NameEnd(text, p), DigitsEnd(text, p);
    NameEndWithin(text, p, q);
    DigitsEndWithin(text, p, q);
    if e < q {
      InWord(text, p, word, e);
    }
    if d < q {
      DigitsAreNames(text, p, d);
      InWord(text, p, word, d);
    } else {
      AllDigits(text, p, SpellWord(word));
    }
  }

  lemma AllDigits(text: string, p: nat, part: string)
    requires Stands(text, p, part) && forall i | p <= i < p + |part| :: IsDigit(At(text, i))
    ensures Digits(part)
  {
    forall i | 0 <= i < |part|
      ensures '0' <= part[i] <= '9'
    {
      assert part[i] == text[p..p + |part|][i] == At(text, p + i);
    }
  }

  lemma StopsWell()
    ensures forall c | Stops(c) :: c != '=' && c != '<' && c != '>'
  {
  }

  lemma DigitsAreNames(text: string, p: nat, d: nat)
    requires forall i | p <= i < d :: IsDigit(At(text, i))
    ensures forall i | p <= i < d :: IsNameChar(At(text, i))
  {
  }

  lemma {:induction false} NameEndWithin(text: string, p: nat, q: nat)
    requires p <= q <= |text| && !IsNameChar(At(text, q))
    ensures NameEnd(text, p) <= q
    decreases q - p
  {
    if p < q && IsNameChar(At(text, p)) {
      NameEndWithin(text, p + 1, q);
    }
  }

  lemma {:induction false} DigitsEndWithin(text: string, p: nat, q: nat)
    requires p <= q <= |text| && !IsDigit(At(text, q))
    ensures DigitsEnd(text, p) <= q
    decreases q - p
  {
    if p < q && IsDigit(At(text, p)) {
      DigitsEndWithin(text, p + 1, q);
    }
  }

  lemma OverArgument(text: string, p: nat, b: nat, word: seq<Chunk>, so: Parsed, env: Env)
    requires p <= |text| && b == SkipBlanks(text, p) && GoodWord(word) && SpellWord(word) != ""
    requires Stands(text, b, SpellWord(word)) && Over(text, b + |SpellWord(word)|)
    requires AtOperatorSign(text, b + |SpellWord(word)|) ==> !Digits(SpellWord(word))
    ensures b + |SpellWord(word)| <= |text|
    ensures LineFrom(text, p, so, env)
         == LineFrom(text, b + |SpellWord(word)|, so.(args := so.args + Fields(WordUnits(word, true, env))), env)
  {
    hide Word, Fields, Stands, WordUnits, LineFrom, SpellWord, GoodWord, Over, IsRedirectStart, AssignmentLength;
    FirstOfWord(word);
    StandsAt(text, b, SpellWord(word), 0);
    OverStops(text, b + |SpellWord(word)|);
    WordIsPlain(text, b, word);
    ReadWord(text, b, word, true, env);
    NoComment(SpellWord(word)[0]);
    AtWord(text, p, b, so, env);
  }

  lemma NoComment(c: char)
    requires IsPlain(c) || c in "\\'\"$"
    ensures c != NUL && c != '#'
  {
  }

  lemma AtWord(text: string, p: nat, b: nat, so: Parsed, env: Env)
    requires p <= |text| && b == SkipBlanks(text, p) && At(text, b) != NUL && At(text, b) != '#'
    requires !IsRedirectStart(text, b) && AssignmentLength(text, b) == 0
    ensures match Word(text, b, [], true, env)
      case Ok(found) => LineFrom(text, p, so, env) == LineFrom(text, found.next, so.(args := so.args + Fields(found.what)), env)
      case Err(e) => LineFrom(text, p, so, env) == Err(e)
  {
    hide Word, Fields, SkipBlanks;
    WordBegins(text, b);
  }

  // What an expanded word says when it is not to be split.
  lemma {:induction false} NeverSplit(word: seq<Chunk>, env: Env)
    ensures Unsplit(WordUnits(word, false, env))
  {
    if word != [] {
      NeverSplit(word[1..], env);
      if word[0].Quotation? {
        NeverSplitInside(word[0].parts, env);
      }
    }
  }

  lemma {:induction false} NeverSplitInside(parts: seq<Inner>, env: Env)
    ensures Unsplit(InnersUnits(parts, env))
  {
    if parts != [] {
      NeverSplitInside(parts[1..], env);
    }
  }

  lemma OverAssign(text: string, p: nat, b: nat, name: string, word: seq<Chunk>, so: Parsed, env: Env)
    requires p <= |text| && b == SkipBlanks(text, p) && IsName(name) && GoodWord(word) && so.args == []
    requires Stands(text, b, name + ("=" + SpellWord(word))) && Over(text, b + |name| + 1 + |SpellWord(word)|)
    ensures b + |name| + 1 + |SpellWord(word)| <= |text|
    ensures LineFrom(text, p, so, env)
         == LineFrom(text, b + |name| + 1 + |SpellWord(word)|,
                     so.(assigns := so.assigns + [name + "=" + Said(WordUnits(word, false, env))]), env)
  {
    hide Word, Fields, Stands, WordUnits, LineFrom, SpellWord, GoodWord, NameEnd, Over, Unsplit, Said, IsName;
    var v := b + |name| + 1;
    NameNotEmpty(name);
    Split(text, b, name, "=" + SpellWord(word));
    Split(text, b + |name|, "=", SpellWord(word));
    ReadNameBefore(text, b, name);
    OverStops(text, v + |SpellWord(word)|);
    ReadWord(text, v, word, false, env);
    NeverSplit(word, env);
    FieldsOfOne(WordUnits(word, false, env));
    TextBefore(text, b, name);
    SaidNothing();
    assert AssignmentAt(text, b, env)
        == Ok(Found(name + "=" + Said(WordUnits(word, false, env)), v + |SpellWord(word)|));
    AtAssignment(text, p, b, v - b, so, env);
  }

  lemma SaidNothing()
    ensures Said([]) == ""
  {
  }

  lemma NameNotEmpty(name: string)
    requires IsName(name)
    ensures name != ""
  {
  }

  lemma ReadNameBefore(text: string, b: nat, name: string)
    requires IsName(name) && Stands(text, b, name) && At(text, b + |name|) == '='
    ensures b < |text| && IsNameStart(text[b]) && AssignmentLength(text, b) == |name| + 1
  {
    StandsAt(text, b, name, 0);
    NameEndIs(text, b, name);
  }

  lemma TextBefore(text: string, b: nat, name: string)
    requires Stands(text, b, name) && Stands(text, b + |name|, "=")
    ensures text[b..b + |name| + 1] == name + "="
  {
    assert text[b + |name|..b + |name| + 1] == "=";
    assert text[b..b + |name| + 1] == text[b..b + |name|] + text[b + |name|..b + |name| + 1];
  }

  lemma AtAssignment(text: string, p: nat, b: nat, n: nat, so: Parsed, env: Env)
    requires p <= |text| && b == SkipBlanks(text, p) && b < |text| && IsNameStart(text[b]) && so.args == []
    requires n > 0 && AssignmentLength(text, b) == n
    ensures match AssignmentAt(text, b, env)
      case Ok(found) => LineFrom(text, p, so, env) == LineFrom(text, found.next, so.(assigns := so.assigns + [found.what]), env)
      case Err(_) => true
  {
    assert !IsDigit(text[b]);
  }

  // ---- redirections ----

  lemma {:induction false} WorthGrows(digits: string, i: nat)
    requires Digits(digits) && i <= |digits|
    ensures Digits(digits[..i]) && Worth(digits[..i]) <= Worth(digits)
    decreases |digits|
  {
    if i < |digits| {
      var k := |digits| - 1;
      WorthGrows(digits[..k], i);
      assert digits[..k][..i] == digits[..i];
    } else {
      assert digits[..i] == digits;
    }
  }

  // A number is read as what it is worth.
  lemma {:induction false} ReadDigits(text: string, p: nat, digits: string, i: nat)
    requires IsNumber(digits) && Stands(text, p, digits) && i <= |digits| && !IsDigit(At(text, p + |digits|))
    ensures Digits(digits[..i])
    ensures NumberFrom(text, p + i, Worth(digits[..i])) == Some(Worth(digits)) && DigitsEnd(text, p + i) == p + |digits|
    decreases |digits| - i
  {
    WorthGrows(digits, i);
    if i == |digits| {
      assert digits[..i] == digits;
    } else {
      ReadDigits(text, p, digits, i + 1);
      WorthGrows(digits, i + 1);
      StandsAt(text, p, digits, i);
      assert digits[..i + 1][..i] == digits[..i] && digits[..i + 1][i] == digits[i];
    }
  }

  lemma ReadNumberAt(text: string, p: nat, digits: string)
    requires IsNumber(digits) && Stands(text, p, digits) && !IsDigit(At(text, p + |digits|))
    ensures NumberFrom(text, p, 0) == Some(Worth(digits)) && DigitsEnd(text, p) == p + |digits|
    ensures digits != "" ==> IsDigit(At(text, p))
  {
    ReadDigits(text, p, digits, 0);
    assert digits[..0] == "";
    if digits != "" {
      StandsAt(text, p, digits, 0);
    }
  }

  function Operator(how: How): string {
    if how.Reads? then "<" else if how.Truncates? then ">" else ">>"
  }

  lemma AfterOperator(text: string, o: nat, how: How, rest: string)
    requires Stands(text, o, Operator(how) + rest) && rest != "" && rest[0] !in "<>|&"
    ensures !IsDigit(At(text, o)) && At(text, o + |Operator(how)|) == rest[0]
    ensures Stands(text, o + |Operator(how)|, rest)
    ensures At(text, o) == (if how.Reads? then '<' else '>')
    ensures if how.Appends? then At(text, o + 1) == '>' else At(text, o + 1) == rest[0]
  {
    Split(text, o, Operator(how), rest);
    StandsAt(text, o, Operator(how), 0);
    if how.Appends? {
      StandsAt(text, o, Operator(how), 1);
    }
  }

  // The word after the operator.
  lemma ReadTarget(text: string, op: nat, q: nat, fd: nat, how: How, gap: string, target: seq<Chunk>, env: Env)
    requires op <= q <= |text| && Spaces(gap) && GoodWord(target) && Said(WordUnits(target, false, env)) != ""
    requires SpellWord(target) != "" && Stands(text, q, gap + SpellWord(target))
    requires Over(text, q + |gap| + |SpellWord(target)|)
    ensures TargetAt(text, op, q, fd, how.Reads?, how.Appends?, env)
         == Ok(Found(File(fd, how.Reads?, how.Appends?, Said(WordUnits(target, false, env))), q + |gap| + |SpellWord(target)|))
  {
    hide Word, Fields, Stands, WordUnits, SpellWord, GoodWord, Over, Said, Unsplit;
    var b, us := q + |gap|, WordUnits(target, false, env);
    FirstOfWord(target);
    FirstIsPlain(SpellWord(target)[0]);
    OverGap(text, q, gap, SpellWord(target));
    Split(text, q, gap, SpellWord(target));
    OverStops(text, b + |SpellWord(target)|);
    ReadWord(text, b, target, false, env);
    NeverSplit(target, env);
    FieldsOfOne(us);
    SaidNothing();
    FirstAfter(text, q, gap);
  }

  lemma FirstIsPlain(c: char)
    requires IsPlain(c) || c in "\\'\"$"
    ensures !IsSpace(c) && c !in "<>|&"
  {
  }

  lemma FirstAfter(text: string, q: nat, gap: string)
    requires Spaces(gap) && Stands(text, q, gap)
    requires gap == "" ==> At(text, q) != '&'
    ensures At(text, q) != '&'
  {
    if gap != "" {
      StandsAt(text, q, gap, 0);
    }
  }

  lemma {:induction false} SaidNeedsWord(word: seq<Chunk>, env: Env)
    requires Said(WordUnits(word, false, env)) != ""
    ensures SpellWord(word) != ""
  {
    if word != [] && SpellChunk(word[0]) == "" {
      assert word[0] == Plain("");
      assert Fixed("") == [] && [] + WordUnits(word[1..], false, env) == WordUnits(word[1..], false, env);
      SaidNeedsWord(word[1..], env);
    }
  }

  lemma OpenReads(text: string, b: nat, number: string, how: How, gap: string, target: seq<Chunk>, env: Env)
    requires GoodPart(Open(number, how, gap, target), env)
    requires Stands(text, b, number + (Operator(how) + (gap + SpellWord(target))))
    requires Over(text, b + |number| + |Operator(how)| + |gap| + |SpellWord(target)|)
    ensures b < |text| && !IsSpace(text[b]) && text[b] != NUL && text[b] != '#' && IsRedirectStart(text, b)
    ensures var fd := if number != "" then Worth(number) else if how.Reads? then 0 else 1;
      RedirectAt(text, b, env) == Ok(Found(File(fd, how.Reads?, how.Appends?, Said(WordUnits(target, false, env))),
                                           b + |number| + |Operator(how)| + |gap| + |SpellWord(target)|))
  {
    hide Word, Fields, Stands, WordUnits, SpellWord, GoodWord, Over, Said, TargetAt, Operator, RedirectAt, NumberFrom, DigitsEnd,
      IsRedirectStart, Worth, IsNumber;
    var o, rest := b + |number|, gap + SpellWord(target);
    NumbersAreDigits(number);
    var fd := if number != "" then Worth(number) else if how.Reads? then 0 else 1;
    SaidNeedsWord(target, env);
    TargetFirst(gap, target);
    BeforeTarget(text, b, number, how, rest);
    RedirectIs(text, b, number, how, env);
    ReadTarget(text, b, o + |Operator(how)|, fd, how, gap, target, env);
  }

  lemma TargetFirst(gap: string, target: seq<Chunk>)
    requires GoodWord(target) && SpellWord(target) != "" && Spaces(gap)
    ensures var rest := gap + SpellWord(target); rest != "" && rest[0] !in "<>|&"
  {
    hide SpellWord, GoodWord;
    FirstOfWord(target);
    FirstIsPlain(SpellWord(target)[0]);
    FirstOfRest(gap, SpellWord(target));
  }

  // A number and an operator.
  lemma BeforeTarget(text: string, b: nat, number: string, how: How, rest: string)
    requires IsNumber(number) && Stands(text, b, number + (Operator(how) + rest)) && rest != "" && rest[0] !in "<>|&"
    ensures Digits(number) && DigitsEnd(text, b) == b + |number| && NumberFrom(text, b, 0) == Some(Worth(number))
    ensures var o := b + |number|;
      && o + |Operator(how)| <= |text| && Stands(text, o + |Operator(how)|, rest)
      && At(text, o) == (if how.Reads? then '<' else '>')
      && if how.Appends? then At(text, o + 1) == '>' else At(text, o + 1) !in "<>|"
    ensures b < |text| && !IsSpace(text[b]) && text[b] != NUL && text[b] != '#'
  {
    hide Stands, Operator, NumberFrom, DigitsEnd, Worth, IsNumber;
    var o := b + |number|;
    NumbersAreDigits(number);
    OperatorSize(how);
    Split(text, b, number, Operator(how) + rest);
    AfterOperator(text, o, how, rest);
    ReadNumberAt(text, b, number);
    StandsInside(text, o + |Operator(how)|, rest);
    AtOperator(text, b, o);
  }

  lemma RedirectIs(text: string, b: nat, number: string, how: How, env: Env)
    requires Digits(number) && DigitsEnd(text, b) == b + |number| && NumberFrom(text, b, 0) == Some(Worth(number))
    requires b + |number| + |Operator(how)| <= |text|
    requires At(text, b + |number|) == if how.Reads? then '<' else '>'
    requires if how.Appends? then At(text, b + |number| + 1) == '>' else At(text, b + |number| + 1) !in "<>|"
    ensures IsRedirectStart(text, b)
    ensures var fd := if number != "" then Worth(number) else if how.Reads? then 0 else 1;
      RedirectAt(text, b, env) == TargetAt(text, b, b + |number| + |Operator(how)|, fd, how.Reads?, how.Appends?, env)
  {
    hide TargetAt, Worth, NumberFrom, DigitsEnd;
  }

  lemma DuplicateIs(text: string, b: nat, number: string, input: bool, env: Env)
    requires Digits(number) && DigitsEnd(text, b) == b + |number| && NumberFrom(text, b, 0) == Some(Worth(number))
    requires b + |number| + 1 < |text| && text[b + |number| + 1] == '&'
    requires At(text, b + |number|) == if input then '<' else '>'
    ensures IsRedirectStart(text, b)
    ensures var fd := if number != "" then Worth(number) else if input then 0 else 1;
      RedirectAt(text, b, env) == TargetAt(text, b, b + |number| + 1, fd, input, false, env)
  {
    hide TargetAt, Worth, NumberFrom, DigitsEnd;
  }

  lemma TargetIs(text: string, op: nat, q: nat, fd: nat, input: bool, source: string, env: Env)
    requires op <= q < |text| && text[q] == '&' && IsDigit(At(text, q + 1))
    requires Digits(source) && DigitsEnd(text, q + 1) == q + 1 + |source| && NumberFrom(text, q + 1, 0) == Some(Worth(source))
    requires EndsWord(At(text, q + 1 + |source|))
    ensures TargetAt(text, op, q, fd, input, false, env) == Ok(Found(Dup(fd, input, Worth(source)), q + 1 + |source|))
  {
    hide Word, Worth, NumberFrom, DigitsEnd;
  }

  lemma OperatorSize(how: How)
    ensures |Operator(how)| == if how.Appends? then 2 else 1
  {
  }

  lemma FirstOfRest(gap: string, word: string)
    requires Spaces(gap) && word != "" && word[0] !in "<>|&"
    ensures gap + word != "" && (gap + word)[0] !in "<>|&"
  {
  }

  lemma AtOperator(text: string, b: nat, o: nat)
    requires b <= o < |text| && (text[o] == '<' || text[o] == '>') && (b < o ==> IsDigit(text[b]))
    ensures !IsSpace(text[b]) && text[b] != NUL && text[b] != '#'
  {
  }

  lemma DuplicateReads(text: string, b: nat, number: string, input: bool, source: string, env: Env)
    requires GoodPart(Duplicate(number, input, source), env)
    requires Stands(text, b, number + ((if input then "<&" else ">&") + source))
    requires Over(text, b + |number| + 2 + |source|)
    ensures b < |text| && !IsSpace(text[b]) && text[b] != NUL && text[b] != '#' && IsRedirectStart(text, b)
    ensures var fd := if number != "" then Worth(number) else if input then 0 else 1;
      RedirectAt(text, b, env) == Ok(Found(Dup(fd, input, Worth(source)), b + |number| + 2 + |source|))
  {
    hide Stands, Over, TargetAt, RedirectAt, NumberFrom, DigitsEnd, IsRedirectStart, Worth, IsNumber, EndsWord, IsDigit;
    NumbersAreDigits(number);
    NumbersAreDigits(source);
    var o := b + |number|;
    Ampersand(text, b, number, input, source);
    OverStops(text, o + 2 + |source|);
    ReadNumberAt(text, b, number);
    ReadNumberAt(text, o + 2, source);
    AtOperator(text, b, o);
    DuplicateIs(text, b, number, input, env);
    TargetIs(text, b, o + 1, if number != "" then Worth(number) else if input then 0 else 1, input, source, env);
  }

  // The characters of a duplication.
  lemma Ampersand(text: string, b: nat, number: string, input: bool, source: string)
    requires Stands(text, b, number + ((if input then "<&" else ">&") + source))
    ensures var o := b + |number|;
      && o + 2 + |source| <= |text| && Stands(text, b, number) && Stands(text, o + 2, source)
      && text[o] == (if input then '<' else '>') && text[o + 1] == '&' && !IsDigit(text[o])
  {
    hide Stands;
    var o, op := b + |number|, if input then "<&" else ">&";
    Split(text, b, number, op + source);
    Split(text, o, op, source);
    StandsAt(text, o, op, 0);
    StandsAt(text, o, op, 1);
  }

  lemma NumbersAreDigits(s: string)
    requires IsNumber(s)
    ensures Digits(s)
  {
  }

  lemma OverRedirect(text: string, p: nat, b: nat, so: Parsed, env: Env)
    requires p <= |text| && b == SkipBlanks(text, p) && b < |text| && text[b] != NUL && text[b] != '#' && IsRedirectStart(text, b)
    requires RedirectAt(text, b, env).Ok?
    ensures var found := RedirectAt(text, b, env).value;
      LineFrom(text, p, so, env) == LineFrom(text, found.next, so.(redirects := so.redirects + [found.what]), env)
  {
    hide RedirectAt;
  }

  // ---- whole lines ----

  // One part, after its blanks.
  lemma OverPart(text: string, p: nat, piece: Piece, so: Parsed, env: Env)
    requires Spaces(piece.gap) && GoodPart(piece.part, env) && (piece.part.Assign? ==> so.args == [])
    requires Stands(text, p, piece.gap + SpellPart(piece.part)) && Over(text, p + |piece.gap| + |SpellPart(piece.part)|)
    requires AtOperatorSign(text, p + |piece.gap| + |SpellPart(piece.part)|) && piece.part.Argument? ==> !Digits(SpellPart(piece.part))
    ensures p + |piece.gap| + |SpellPart(piece.part)| <= |text|
    ensures LineFrom(text, p, so, env)
         == LineFrom(text, p + |piece.gap| + |SpellPart(piece.part)|, Says(so, piece.part, env), env)
  {
    hide Stands, LineFrom, RedirectAt, Over, WordUnits, SpellWord, GoodWord, Said, Fields, IsNumber, Worth, IsRedirectStart;
    var b, spelled := p + |piece.gap|, SpellPart(piece.part);
    StandsInside(text, p, piece.gap + spelled);
    FirstOfPart(piece.part, env);
    OverGap(text, p, piece.gap, spelled);
    Split(text, p, piece.gap, spelled);
    match piece.part
    case Argument(word) => OverArgument(text, p, b, word, so, env);
    case Assign(name, word) => OverAssign(text, p, b, name, word, so, env);
    case Open(number, how, gap, target) =>
      OpenReads(text, b, number, how, gap, target, env);
      OverRedirect(text, p, b, so, env);
    case Duplicate(number, input, source) =>
      DuplicateReads(text, b, number, input, source, env);
      OverRedirect(text, p, b, so, env);
  }

  lemma FirstOfPart(part: Part, env: Env)
    requires GoodPart(part, env)
    ensures SpellPart(part) != "" && !IsSpace(SpellPart(part)[0])
  {
    hide SpellWord, GoodWord, Said, WordUnits, Worth;
    match part
    case Argument(word) =>
      FirstOfWord(word);
      FirstIsPlain(SpellWord(word)[0]);
    case Assign(name, word) => FirstOfJoin(name, "=" + SpellWord(word));
    case Open(number, how, gap, target) => FirstOfJoin(number, Operator(how) + (gap + SpellWord(target)));
    case Duplicate(number, input, source) => FirstOfJoin(number, (if input then "<&" else ">&") + source);
  }

  lemma FirstOfJoin(a: string, b: string)
    requires b != "" && (a == "" ==> !IsSpace(b[0])) && (a != "" ==> !IsSpace(a[0]))
    ensures a + b != "" && !IsSpace((a + b)[0])
  {
  }

  lemma LineFirst(line: seq<Piece>, env: Env)
    requires line != [] && GoodLine(line, env)
    ensures Spaces(line[0].gap) && GoodPart(line[0].part, env) && GoodLine(line[1..], env)
    ensures SpellLine(line) == (line[0].gap + SpellPart(line[0].part)) + SpellLine(line[1..])
    ensures |line| > 1 ==> MayFollow(line[0].part, SpellLine(line[1..]))
    ensures line[0].part.Argument? ==> forall i | 0 <= i < |line[1..]| :: !line[1..][i].part.Assign?
    ensures |line| == 1 ==> SpellLine(line[1..]) == ""
  {
    hide SpellPart, GoodPart, Spaces;
    JoinText(line[0].gap, SpellPart(line[0].part), SpellLine(line[1..]));
    var rest := line[1..];
    forall i | 0 <= i < |rest|
      ensures rest[i] == line[i + 1]
    {
    }
    if |line| > 1 {
      assert Spaces(line[1].gap) && rest[0] == line[1];
      assert line[1].gap != "" || Abuts(line[0].part, line[1].part);
      FirstGap(line[0].part, rest);
      forall i | 0 < i < |rest|
        ensures rest[i].gap != "" || Abuts(rest[i - 1].part, rest[i].part)
      {
        assert line[i + 1].gap != "" || Abuts(line[i].part, line[i + 1].part);
      }
    }
  }

  // What may come right after a part.
  predicate MayFollow(part: Part, rest: string) {
    && rest != "" && (IsSpace(rest[0]) || rest[0] == '<' || rest[0] == '>')
    && (part.Argument? && (rest[0] == '<' || rest[0] == '>') ==> !Digits(SpellWord(part.word)))
  }

  lemma FirstGap(before: Part, line: seq<Piece>)
    requires line != [] && Spaces(line[0].gap) && (line[0].gap != "" || Abuts(before, line[0].part))
    ensures MayFollow(before, SpellLine(line))
  {
    hide SpellWord, Digits;
    var part, rest := line[0].part, SpellLine(line[1..]);
    if line[0].gap == "" {
      assert "" + (SpellPart(part) + rest) == SpellPart(part) + rest;
      if part.Open? {
        assert "" + (Operator(part.how) + (part.gap + SpellWord(part.target))) == Operator(part.how) + (part.gap + SpellWord(part.target));
      } else {
        assert SpellPart(part) == (if part.input then "<&" else ">&") + part.source;
      }
    } else {
      assert SpellLine(line)[0] == line[0].gap[0];
    }
  }

  // Main result: a line of any such parts, up to wherever a part may end, is
  // read as what the parts say in order.
  lemma {:induction false} ReadLine(text: string, p: nat, line: seq<Piece>, so: Parsed, env: Env)
    requires GoodLine(line, env) && Stands(text, p, SpellLine(line)) && Ends(text, p + |SpellLine(line)|)
    requires (exists i :: 0 <= i < |line| && line[i].part.Assign?) ==> so.args == []
    ensures p + |SpellLine(line)| <= |text|
    ensures LineFrom(text, p, so, env) == LineFrom(text, p + |SpellLine(line)|, SaysAll(so, line, env), env)
    decreases |line|
  {
    hide Stands, LineFrom, SpellPart, GoodPart, Over, SpellLine, Spaces, GoodLine, Ends, AtOperatorSign, Digits, MayFollow;
    if line == [] {
      NoParts();
      StandsInside(text, p, "");
    } else {
      LineFirst(line, env);
      var first, rest := line[0].gap + SpellPart(line[0].part), SpellLine(line[1..]);
      Split(text, p, first, rest);
      EndOfPart(text, p + |first|, line[0].part, rest);
      OverPart(text, p, line[0], so, env);
      var next := Says(so, line[0].part, env);
      StillNoArguments(so, line, env);
      ReadLine(text, p + |first|, line[1..], next, env);
    }
  }

  lemma NoParts()
    ensures SpellLine([]) == ""
  {
  }

  lemma EndOfPart(text: string, q: nat, part: Part, rest: string)
    requires Stands(text, q, rest) && (if rest == "" then Ends(text, q) else MayFollow(part, rest))
    ensures Over(text, q) && (AtOperatorSign(text, q) && part.Argument? ==> !Digits(SpellPart(part)))
  {
    hide SpellWord, Digits;
    if rest != "" {
      StandsAt(text, q, rest, 0);
    }
  }

  lemma StillNoArguments(so: Parsed, line: seq<Piece>, env: Env)
    requires line != [] && GoodLine(line, env) && GoodPart(line[0].part, env)
    requires (exists i :: 0 <= i < |line| && line[i].part.Assign?) ==> so.args == []
    ensures (exists i :: 0 <= i < |line[1..]| && line[1..][i].part.Assign?) ==> Says(so, line[0].part, env).args == []
  {
    if i :| 0 <= i < |line[1..]| && line[1..][i].part.Assign? {
      assert line[i + 1].part.Assign?;
      assert !line[0].part.Argument?;
    }
  }

  // ---- outcomes ----

  // After the last part there may be blanks, and after them a comment.
  predicate GoodTail(line: seq<Piece>, gap: string, comment: string) {
    Spaces(gap) && (comment == "" || (comment[0] == '#' && (line == [] || gap != "")))
  }

  lemma {:induction false} OverSpaces(text: string, p: nat, gap: string)
    requires Spaces(gap) && Stands(text, p, gap) && !IsSpace(At(text, p + |gap|))
    ensures SkipBlanks(text, p) == p + |gap|
    decreases |gap|
  {
    if gap != "" {
      assert gap == [gap[0]] + gap[1..];
      Split(text, p, [gap[0]], gap[1..]);
      OverSpaces(text, p + 1, gap[1..]);
    }
  }

  // What follows a line's parts: its blanks, and the rest.
  lemma AfterParts(text: string, line: seq<Piece>, gap: string, rest: string, env: Env)
    requires GoodLine(line, env) && Spaces(gap) && text == SpellLine(line) + (gap + rest)
    requires line != [] && gap == "" ==> rest == ""
    requires rest != "" ==> !IsSpace(rest[0])
    ensures LineFrom(text, 0, NOTHING, env) == LineFrom(text, |SpellLine(line)|, SaysAll(NOTHING, line, env), env)
    ensures SkipBlanks(text, |SpellLine(line)|) == |SpellLine(line)| + |gap| && Stands(text, |SpellLine(line)| + |gap|, rest)
    ensures |SpellLine(line)| + |gap| + |rest| == |text|
  {
    hide LineFrom, SpellLine, GoodLine, SaysAll;
    var q := |SpellLine(line)|;
    StandInTurn(text, SpellLine(line), gap, rest);
    OverSpaces(text, q, gap);
    if line == [] {
      NoParts();
      SaysNothing(env);
    } else {
      if gap != "" {
        StandsAt(text, q, gap, 0);
      }
      ReadLine(text, 0, line, NOTHING, env);
    }
  }

  lemma StandInTurn(text: string, a: string, gap: string, rest: string)
    requires text == a + (gap + rest)
    ensures Stands(text, 0, a) && Stands(text, |a|, gap) && Stands(text, |a| + |gap|, rest)
    ensures |a| + |gap| + |rest| == |text|
    ensures At(text, |a| + |gap|) == if rest == "" then NUL else rest[0]
  {
    assert text[|a|..] == gap + rest;
    assert text[|a|..|a| + |gap|] == (gap + rest)[..|gap|] == gap;
    assert text[|a| + |gap|..|text|] == (gap + rest)[|gap|..] == rest;
  }

  lemma SaysNothing(env: Env)
    ensures GoodLine([], env) && SaysAll(NOTHING, [], env) == NOTHING
  {
  }

  // Main result: a line of parts, with a comment or without one, has the
  // outcome that its parts have.
  lemma Outcomes(line: seq<Piece>, gap: string, comment: string, env: Env, fallback: bool)
    requires GoodLine(line, env) && GoodTail(line, gap, comment)
    ensures var text, says := SpellLine(line) + (gap + comment), SaysAll(NOTHING, line, env);
      var slots := SlotsOf(says.redirects);
      Parse(text, env, fallback)
      == if !DupOrderOk(slots) then
           if fallback then ShellC(text) else Failed(Error(Unsupported, |SpellLine(line)| + |gap|))
         else if says.args != [] then Direct(says.args, says.assigns, slots)
         else Failed(Error(if says.assigns == [] && NoneEffective(says.redirects) then Empty else NoCommand, 0))
  {
    hide SpellLine, GoodLine, SaysAll, Stands;
    var text, says := SpellLine(line) + (gap + comment), SaysAll(NOTHING, line, env);
    AfterParts(text, line, gap, comment, env);
    var q := |SpellLine(line)| + |gap|;
    if comment != "" {
      StandsAt(text, q, comment, 0);
    }
    AtEndOfLine(text, |SpellLine(line)|, q, says, env);
    NoSlotsIff(says.redirects);
  }

  lemma AtEndOfLine(text: string, p: nat, b: nat, so: Parsed, env: Env)
    requires p <= |text| && b == SkipBlanks(text, p) && (At(text, b) == NUL || At(text, b) == '#')
    ensures LineFrom(text, p, so, env) == Ok(Found(so, b))
  {
  }

  // ---- what is left to a shell, and what is an error for any ----

  // A word that cannot be read makes the line's error.
  lemma UnreadableWord(line: seq<Piece>, gap: string, word: seq<Chunk>, rest: string, error: Error, env: Env, fallback: bool)
    requires GoodLine(line, env) && Spaces(gap) && (line == [] || gap != "") && GoodWord(word)
    requires rest != "" && (SpellWord(word) == "" ==> !IsSpace(rest[0]) && rest[0] != '#' && rest[0] != NUL)
    requires Stops(rest[0]) && !IsNameChar(rest[0]) && !IsDigit(rest[0]) && (DollarLast(word) ==> !BeginsParameter(rest[0]))
    requires var text := SpellLine(line) + (gap + (SpellWord(word) + rest));
      Word(text, |SpellLine(line)| + |gap| + |SpellWord(word)|, WordUnits(word, true, env), true, env) == Err(error)
    ensures var text := SpellLine(line) + (gap + (SpellWord(word) + rest));
      Parse(text, env, fallback) == if error.code == Unsupported && fallback then ShellC(text) else Failed(error)
  {
    hide SpellLine, GoodLine, SaysAll, Stands, Word, WordUnits, GoodWord, SpellWord, LineFrom, Stops, IsNameChar, IsDigit;
    var after := SpellWord(word) + rest;
    var text := SpellLine(line) + (gap + after);
    var b := |SpellLine(line)| + |gap|;
    FirstUnread(word, rest);
    AfterParts(text, line, gap, after, env);
    Split(text, b, SpellWord(word), rest);
    StandsAt(text, b, after, 0);
    StopsWell();
    WordIsPlain(text, b, word);
    OverChunks(text, b, word, [], true, env);
    assert [] + WordUnits(word, true, env) == WordUnits(word, true, env);
    AtWord(text, |SpellLine(line)|, b, SaysAll(NOTHING, line, env), env);
  }

  lemma FirstUnread(word: seq<Chunk>, rest: string)
    requires GoodWord(word) && rest != ""
    requires SpellWord(word) == "" ==> !IsSpace(rest[0]) && rest[0] != '#' && rest[0] != NUL
    ensures var first := (SpellWord(word) + rest)[0]; !IsSpace(first) && first != '#' && first != NUL
  {
    if SpellWord(word) != "" {
      FirstOfWord(word);
      FirstIsPlain(SpellWord(word)[0]);
      NoComment(SpellWord(word)[0]);
    }
  }

  // An operator, a pattern or the like: the line is for a real shell.
  lemma ForAShell(line: seq<Piece>, gap: string, word: seq<Chunk>, c: char, more: string, env: Env, fallback: bool)
    requires GoodLine(line, env) && Spaces(gap) && (line == [] || gap != "") && GoodWord(word) && !DollarLast(word)
    requires c in "|&;()*?[]{}`!" || (c == '~' && SpellWord(word) == "")
    ensures var text := SpellLine(line) + (gap + (SpellWord(word) + ([c] + more)));
      Parse(text, env, fallback)
      == if fallback then ShellC(text) else Failed(Error(Unsupported, |SpellLine(line)| + |gap| + |SpellWord(word)|))
  {
    hide SpellLine, GoodLine, GoodWord, Parse, Word, WordUnits, SpellWord, Stops, IsNameChar, IsDigit, IsSpace, DollarLast, BeginsParameter;
    var rest := [c] + more;
    var text := SpellLine(line) + (gap + (SpellWord(word) + rest));
    var at := |SpellLine(line)| + |gap| + |SpellWord(word)|;
    Middle(SpellLine(line), gap, SpellWord(word), rest);
    ShellCharacter(c);
    if c == '~' {
      EmptyWord(word, env);
    }
    Refused(text, at, WordUnits(word, true, env), env);
    UnreadableWord(line, gap, word, rest, Error(Unsupported, at), env, fallback);
  }

  lemma Middle(a: string, b: string, c: string, d: string)
    ensures var s := a + (b + (c + d)); |s| >= |a| + |b| + |c| && s[|a| + |b| + |c|..] == d
    ensures d != "" ==> |a| + |b| + |c| < |a + (b + (c + d))| && (a + (b + (c + d)))[|a| + |b| + |c|] == d[0]
  {
  }

  lemma ShellCharacter(c: char)
    requires c in "|&;()*?[]{}`!~"
    ensures Stops(c) && !IsNameChar(c) && !IsDigit(c) && !IsSpace(c) && c != '#' && c != NUL
  {
  }

  lemma {:induction false} EmptyWord(word: seq<Chunk>, env: Env)
    requires SpellWord(word) == ""
    ensures WordUnits(word, true, env) == []
  {
    if word != [] {
      assert SpellChunk(word[0]) == "" && SpellWord(word[1..]) == "";
      assert word[0] == Plain("") && Fixed("") == [];
      EmptyWord(word[1..], env);
    }
  }

  lemma Refused(text: string, p: nat, before: seq<Unit>, env: Env)
    requires p < |text| && (text[p] in "|&;()*?[]{}`!" || (text[p] == '~' && before == []))
    ensures Word(text, p, before, true, env) == Err(Error(Unsupported, p))
  {
    assert AtFieldStart([]);
  }

  // An apostrophe that is not closed is an error at the end of the line, for any
  // shell.
  lemma NotClosed(line: seq<Piece>, gap: string, word: seq<Chunk>, s: string, env: Env, fallback: bool)
    requires GoodLine(line, env) && Spaces(gap) && (line == [] || gap != "") && GoodWord(word) && NUL !in s && '\'' !in s
    ensures var text := SpellLine(line) + (gap + (SpellWord(word) + ("'" + s)));
      Parse(text, env, fallback) == Failed(Error(Syntax, |text|))
  {
    hide SpellLine, GoodLine, GoodWord, Parse, SpellWord, Word, WordUnits, Stops, IsNameChar, IsDigit, IsSpace, DollarLast, BeginsParameter;
    var rest := "'" + s;
    var text := SpellLine(line) + (gap + (SpellWord(word) + rest));
    var at := |SpellLine(line)| + |gap| + |SpellWord(word)|;
    Middle(SpellLine(line), gap, SpellWord(word), rest);
    assert text[at..] == rest && rest[1..] == s;
    AtUnclosed(text, at, WordUnits(word, true, env), env);
    Apostrophe();
    UnreadableWord(line, gap, word, rest, Error(Syntax, |text|), env, fallback);
  }

  lemma Apostrophe()
    ensures Stops('\'') && !IsNameChar('\'') && !IsDigit('\'') && !IsSpace('\'') && !BeginsParameter('\'')
  {
  }

  lemma AtUnclosed(text: string, p: nat, before: seq<Unit>, env: Env)
    requires p < |text| && text[p] == '\'' && NUL !in text[p..][1..] && '\'' !in text[p..][1..]
    ensures Word(text, p, before, true, env) == Err(Error(Syntax, |text|))
  {
    assert text[p + 1..] == text[p..][1..];
    RunsOut(text, p + 1, before + [Quotes]);
  }

  lemma {:induction false} RunsOut(text: string, p: nat, before: seq<Unit>)
    requires p <= |text| && NUL !in text[p..] && '\'' !in text[p..]
    ensures Single(text, p, before) == Err(Error(Syntax, |text|))
    decreases |text| - p
  {
    if p < |text| {
      assert text[p] == text[p..][0] && text[p + 1..] == text[p..][1..];
      RunsOut(text, p + 1, before + [Byte(text[p], false)]);
    }
  }

  // The same for double quotes; and before they are closed, a backquote or a
  // special parameter leaves the line to a shell.
  lemma WithinQuotation(line: seq<Piece>, gap: string, word: seq<Chunk>, s: string, rest: string, env: Env, fallback: bool)
    requires GoodLine(line, env) && Spaces(gap) && (line == [] || gap != "") && GoodWord(word) && NUL !in s
    requires rest == "" || rest[0] == '`' || (|rest| > 1 && rest[0] == '$' && (rest[1] in "(?!#@*$" || '0' <= rest[1] <= '9'))
    ensures var text := SpellLine(line) + (gap + (SpellWord(word) + ("\"" + (SpellLiteral(s) + rest))));
      var at := |SpellLine(line)| + |gap| + |SpellWord(word)| + 1 + |SpellLiteral(s)|;
      Parse(text, env, fallback)
      == if rest == "" then Failed(Error(Syntax, |text|))
         else if fallback then ShellC(text) else Failed(Error(Unsupported, at))
  {
    hide SpellLine, GoodLine, GoodWord, Parse, SpellWord, Word, WordUnits, Stops, IsNameChar, IsDigit, IsSpace, DollarLast, BeginsParameter,
      SpellLiteral;
    var all := "\"" + (SpellLiteral(s) + rest);
    var text := SpellLine(line) + (gap + (SpellWord(word) + all));
    var at := |SpellLine(line)| + |gap| + |SpellWord(word)|;
    Middle(SpellLine(line), gap, SpellWord(word), all);
    WithinQuotes(text, at, s, rest, WordUnits(word, true, env), env);
    QuotationMark();
    UnreadableWord(line, gap, word, all,
                   if rest == "" then Error(Syntax, |text|) else Error(Unsupported, at + 1 + |SpellLiteral(s)|), env, fallback);
  }

  lemma QuotationMark()
    ensures Stops('"') && !IsNameChar('"') && !IsDigit('"') && !IsSpace('"') && !BeginsParameter('"')
  {
  }

  lemma WithinQuotes(text: string, p: nat, s: string, rest: string, before: seq<Unit>, env: Env)
    requires p < |text| && text[p..] == "\"" + (SpellLiteral(s) + rest) && NUL !in s
    requires rest == "" || rest[0] == '`' || (|rest| > 1 && rest[0] == '$' && (rest[1] in "(?!#@*$" || '0' <= rest[1] <= '9'))
    ensures Word(text, p, before, true, env)
         == Err(if rest == "" then Error(Syntax, |text|) else Error(Unsupported, p + 1 + |SpellLiteral(s)|))
  {
    hide Word, Double, SpellLiteral, Stands, Fixed;
    var q := p + 1 + |SpellLiteral(s)|;
    StandsToTheEnd(text, p, "\"" + (SpellLiteral(s) + rest));
    Split(text, p, "\"", SpellLiteral(s) + rest);
    Split(text, p + 1, SpellLiteral(s), rest);
    StandsLast(text, q, rest);
    ReadLiteral(text, p + 1, s, before + [Quotes], env);
    NotInside(text, q, rest, before + [Quotes] + Fixed(s), env);
    AtOpening(text, p, before, env);
  }

  lemma StandsToTheEnd(text: string, p: nat, part: string)
    requires p <= |text| && text[p..] == part
    ensures Stands(text, p, part) && p + |part| == |text|
  {
  }

  lemma StandsLast(text: string, p: nat, part: string)
    requires Stands(text, p, part) && p + |part| == |text|
    ensures text[p..] == part
  {
  }

  lemma AtOpening(text: string, p: nat, before: seq<Unit>, env: Env)
    requires p < |text| && text[p] == '"' && Double(text, p + 1, before + [Quotes], env).Err?
    ensures Word(text, p, before, true, env) == Err(Double(text, p + 1, before + [Quotes], env).error)
  {
    hide Double;
  }

  lemma NotInside(text: string, q: nat, rest: string, before: seq<Unit>, env: Env)
    requires q <= |text| && text[q..] == rest
    requires rest == "" || rest[0] == '`' || (|rest| > 1 && rest[0] == '$' && (rest[1] in "(?!#@*$" || '0' <= rest[1] <= '9'))
    ensures Double(text, q, before, env) == Err(if rest == "" then Error(Syntax, |text|) else Error(Unsupported, q))
  {
    if rest != "" {
      assert text[q] == rest[0];
      if rest[0] == '$' {
        assert At(text, q + 1) == rest[1];
        assert ParameterAt(text, q) == Err(Error(Unsupported, q));
      }
    }
  }

  // A backslash at the very end is an error for any shell.
  lemma LastBackslash(line: seq<Piece>, gap: string, word: seq<Chunk>, env: Env, fallback: bool)
    requires GoodLine(line, env) && Spaces(gap) && (line == [] || gap != "") && GoodWord(word)
    ensures var text := SpellLine(line) + (gap + (SpellWord(word) + "\\"));
      Parse(text, env, fallback) == Failed(Error(Syntax, |text| - 1))
  {
    hide SpellLine, GoodLine, GoodWord, Parse, SpellWord, Word, WordUnits, Stops, IsNameChar, IsDigit, IsSpace, DollarLast, BeginsParameter;
    var text := SpellLine(line) + (gap + (SpellWord(word) + "\\"));
    var at := |SpellLine(line)| + |gap| + |SpellWord(word)|;
    Middle(SpellLine(line), gap, SpellWord(word), "\\");
    AtLastBackslash(text, at, WordUnits(word, true, env), env);
    UnreadableWord(line, gap, word, "\\", Error(Syntax, |text| - 1), env, fallback);
  }

  lemma AtLastBackslash(text: string, p: nat, before: seq<Unit>, env: Env)
    requires p == |text| - 1 && text[p] == '\\'
    ensures Word(text, p, before, true, env) == Err(Error(Syntax, p))
    ensures Stops('\\') && !IsNameChar('\\') && !IsDigit('\\') && !IsSpace('\\') && !BeginsParameter('\\')
  {
  }

  // What a dollar sign cannot stand before: a special or positional parameter,
  // a command substitution, or a name that is too long.
  lemma NotAVariable(line: seq<Piece>, gap: string, word: seq<Chunk>, rest: string, env: Env, fallback: bool)
    requires GoodLine(line, env) && Spaces(gap) && (line == [] || gap != "") && GoodWord(word) && !DollarLast(word)
    requires rest != "" && (rest[0] in "(?!#@*$" || '0' <= rest[0] <= '9' || TooLong(rest))
    ensures var text := SpellLine(line) + (gap + (SpellWord(word) + ("$" + rest)));
      Parse(text, env, fallback)
      == if fallback then ShellC(text) else Failed(Error(Unsupported, |SpellLine(line)| + |gap| + |SpellWord(word)|))
  {
    hide SpellLine, GoodLine, GoodWord, Parse, SpellWord, Word, WordUnits, Stops, IsNameChar, IsDigit, IsSpace, DollarLast, BeginsParameter, TooLong;
    var all := "$" + rest;
    var text := SpellLine(line) + (gap + (SpellWord(word) + all));
    var at := |SpellLine(line)| + |gap| + |SpellWord(word)|;
    Middle(SpellLine(line), gap, SpellWord(word), all);
    assert text[at..] == all && all[1..] == rest;
    AtOther(text, at, rest, WordUnits(word, true, env), env);
    DollarStops();
    UnreadableWord(line, gap, word, all, Error(Unsupported, at), env, fallback);
  }

  // More than 127 characters of a name.
  predicate TooLong(s: string) {
    |s| > 127 && IsLetter(s[0]) && forall i | 0 <= i <= 127 :: IsLetter(s[i]) || '0' <= s[i] <= '9'
  }

  lemma DollarStops()
    ensures Stops('$') && !IsNameChar('$') && !IsDigit('$') && !IsSpace('$')
  {
  }

  lemma AtOther(text: string, p: nat, rest: string, before: seq<Unit>, env: Env)
    requires p < |text| && text[p] == '$' && text[p..][1..] == rest && rest != ""
    requires rest[0] in "(?!#@*$" || '0' <= rest[0] <= '9' || TooLong(rest)
    ensures Word(text, p, before, true, env) == Err(Error(Unsupported, p))
  {
    assert text[p + 1..] == rest;
    assert At(text, p + 1) == rest[0];
    if TooLong(rest) {
      forall j | p + 1 <= j <= p + 128
        ensures IsNameChar(At(text, j))
      {
        assert At(text, j) == rest[j - (p + 1)];
      }
      EndsLater(text, p + 1, p + 129);
    }
    assert ParameterAt(text, p) == Err(Error(Unsupported, p));
  }

  // Braces that hold no name, a longer name, or more than a name.
  lemma NotAPlainName(line: seq<Piece>, gap: string, word: seq<Chunk>, name: string, rest: string, env: Env, fallback: bool)
    requires GoodLine(line, env) && Spaces(gap) && (line == [] || gap != "") && GoodWord(word) && !DollarLast(word)
    requires name == "" || IsName(name)
    requires rest == "" || (!IsLetter(rest[0]) && (name == "" || (rest[0] != '}' && !('0' <= rest[0] <= '9'))))
    ensures var text := SpellLine(line) + (gap + (SpellWord(word) + ("${" + (name + rest))));
      var at := |SpellLine(line)| + |gap| + |SpellWord(word)|;
      Parse(text, env, fallback)
      == if fallback then ShellC(text) else Failed(Error(Unsupported, if name == "" then at else at + 2 + |name|))
  {
    hide SpellLine, GoodLine, GoodWord, Parse, SpellWord, Word, WordUnits, Stops, IsNameChar, IsDigit, IsSpace, DollarLast, BeginsParameter, IsName;
    var all := "${" + (name + rest);
    var text := SpellLine(line) + (gap + (SpellWord(word) + all));
    var at := |SpellLine(line)| + |gap| + |SpellWord(word)|;
    Middle(SpellLine(line), gap, SpellWord(word), all);
    AtBraces(text, at, name, rest, WordUnits(word, true, env), env);
    DollarStops();
    UnreadableWord(line, gap, word, all, Error(Unsupported, if name == "" then at else at + 2 + |name|), env, fallback);
  }

  lemma AtBraces(text: string, p: nat, name: string, rest: string, before: seq<Unit>, env: Env)
    requires p < |text| && text[p] == '$' && text[p..] == "${" + (name + rest) && (name == "" || IsName(name))
    requires rest == "" || (!IsLetter(rest[0]) && (name == "" || (rest[0] != '}' && !('0' <= rest[0] <= '9'))))
    ensures Word(text, p, before, true, env) == Err(Error(Unsupported, if name == "" then p else p + 2 + |name|))
  {
    assert Stands(text, p, "${" + (name + rest));
    Split(text, p, "${", name + rest);
    Split(text, p + 2, name, rest);
    StandsAt(text, p, "${", 1);
    assert rest == "" ==> |text| == p + 2 + |name|;
    if name == "" {
      assert !IsNameStart(At(text, p + 2));
    } else {
      NameEndIs(text, p + 2, name);
    }
    assert ParameterAt(text, p) == Err(Error(Unsupported, if name == "" then p else p + 2 + |name|));
  }

  lemma EndsLater(text: string, p: nat, q: nat)
    requires forall j | p <= j < q :: IsNameChar(At(text, j))
    ensures NameEnd(text, p) >= q
  {
  }

  // A descriptor above 1024 is left to a shell as well.
  lemma NumberTooLarge(line: seq<Piece>, gap: string, number: string, operator: char, more: string, env: Env, fallback: bool)
    requires GoodLine(line, env) && Spaces(gap) && (line == [] || gap != "")
    requires Digits(number) && Worth(number) > 1024 && operator in "<>"
    ensures var text := SpellLine(line) + (gap + (number + ([operator] + more)));
      Parse(text, env, fallback) == if fallback then ShellC(text) else Failed(Error(Unsupported, |SpellLine(line)| + |gap|))
  {
    hide SpellLine, GoodLine, SaysAll, Stands, LineFrom, Worth, Digits;
    var tail := [operator] + more;
    var after := number + tail;
    var text := SpellLine(line) + (gap + after);
    var b := |SpellLine(line)| + |gap|;
    LargeHasDigits(number);
    AfterParts(text, line, gap, after, env);
    Split(text, b, number, tail);
    LargeNumber(text, b, number);
    AtLargeNumber(text, |SpellLine(line)|, b, b + |number|, SaysAll(NOTHING, line, env), env);
  }

  lemma LargeHasDigits(number: string)
    requires Digits(number) && Worth(number) > 1024
    ensures number != "" && !IsSpace(number[0])
  {
  }

  lemma LargeNumber(text: string, p: nat, digits: string)
    requires Digits(digits) && Worth(digits) > 1024 && Stands(text, p, digits) && !IsDigit(At(text, p + |digits|))
    ensures NumberFrom(text, p, 0) == None && DigitsEnd(text, p) == p + |digits| && IsDigit(At(text, p))
  {
    LargeHasDigits(digits);
    StandsAt(text, p, digits, 0);
    assert digits[..0] == "";
    LargeFrom(text, p, digits, 0);
  }

  lemma {:induction false} LargeFrom(text: string, p: nat, digits: string, i: nat)
    requires Digits(digits) && Worth(digits) > 1024 && Stands(text, p, digits) && !IsDigit(At(text, p + |digits|))
    requires i <= |digits| && Digits(digits[..i])
    ensures DigitsEnd(text, p + i) == p + |digits|
    ensures Worth(digits[..i]) <= 1024 ==> NumberFrom(text, p + i, Worth(digits[..i])) == None
    decreases |digits| - i
  {
    if i == |digits| {
      assert digits[..i] == digits;
    } else {
      WorthGrows(digits, i + 1);
      LargeFrom(text, p, digits, i + 1);
      StandsAt(text, p, digits, i);
      assert digits[..i + 1][..i] == digits[..i] && digits[..i + 1][i] == digits[i];
    }
  }

  lemma AtLargeNumber(text: string, p: nat, b: nat, o: nat, so: Parsed, env: Env)
    requires p <= |text| && b == SkipBlanks(text, p) && b < o < |text| && IsDigit(At(text, b))
    requires DigitsEnd(text, b) == o && NumberFrom(text, b, 0) == None && (text[o] == '<' || text[o] == '>')
    ensures LineFrom(text, p, so, env) == Err(Error(Unsupported, b))
  {
  }

  // A here-document, what opens a file for both, what overrides a file, and an
  // ampersand without a descriptor are left to a shell.
  predicate OnlyForAShell(operator: string, more: string) {
    || operator in ["<<", "<>", ">|"]
    || (operator in ["<&", ">&", ">>&"] && (more == "" || !('0' <= more[0] <= '9')))
  }

  lemma OperatorForAShell(line: seq<Piece>, gap: string, number: string, operator: string, more: string, env: Env, fallback: bool)
    requires GoodLine(line, env) && Spaces(gap) && (line == [] || gap != "")
    requires IsNumber(number) && OnlyForAShell(operator, more)
    ensures var text := SpellLine(line) + (gap + (number + (operator + more)));
      Parse(text, env, fallback) == if fallback then ShellC(text) else Failed(Error(Unsupported, |SpellLine(line)| + |gap|))
  {
    hide SpellLine, GoodLine, SaysAll, Stands, LineFrom, IsNumber, OnlyForAShell, RedirectAt, IsRedirectStart;
    var tail := operator + more;
    var after := number + tail;
    var text := SpellLine(line) + (gap + after);
    var b := |SpellLine(line)| + |gap|;
    OperatorSigns(operator, more);
    FirstOfNumber(number, tail);
    AfterParts(text, line, gap, after, env);
    OperatorReads(text, b, number, operator, more, env);
    AtBadRedirect(text, |SpellLine(line)|, b, SaysAll(NOTHING, line, env), env);
  }

  lemma OperatorReads(text: string, b: nat, number: string, operator: string, more: string, env: Env)
    requires IsNumber(number) && OnlyForAShell(operator, more)
    requires Stands(text, b, number + (operator + more)) && b + |number| + |operator| + |more| == |text|
    ensures b < |text| && text[b] != NUL && text[b] != '#'
    ensures IsRedirectStart(text, b) && RedirectAt(text, b, env) == Err(Error(Unsupported, b))
  {
    hide Stands, Worth, Digits, IsNumber, OnlyForAShell, RedirectAt, IsRedirectStart, NumberFrom, DigitsEnd;
    OperatorSigns(operator, more);
    FirstOfNumber(number, operator + more);
    Split(text, b, number, operator + more);
    Split(text, b + |number|, operator, more);
    SecondSigns(text, b + |number|, operator, more);
    NumbersAreDigits(number);
    ReadNumberAt(text, b, number);
    AtOperator(text, b, b + |number|);
    RedirectForAShell(text, b, b + |number|, operator, more, env);
  }

  lemma OperatorSigns(operator: string, more: string)
    requires OnlyForAShell(operator, more)
    ensures |operator| >= 2 && (operator[0] == '<' || operator[0] == '>')
  {
  }

  lemma FirstOfNumber(number: string, tail: string)
    requires IsNumber(number) && tail != "" && (tail[0] == '<' || tail[0] == '>')
    ensures number + tail != "" && !IsSpace((number + tail)[0]) && !IsDigit(tail[0])
  {
  }

  lemma SecondSigns(text: string, o: nat, operator: string, more: string)
    requires Stands(text, o, operator) && Stands(text, o + |operator|, more) && o + |operator| + |more| == |text|
    ensures forall i | 0 <= i < |operator| :: At(text, o + i) == operator[i]
    ensures At(text, o + |operator|) == if more == "" then NUL else more[0]
  {
    forall i | 0 <= i < |operator|
      ensures At(text, o + i) == operator[i]
    {
      StandsAt(text, o, operator, i);
    }
    if more != "" {
      StandsAt(text, o + |operator|, more, 0);
    }
  }

  lemma RedirectForAShell(text: string, b: nat, o: nat, operator: string, more: string, env: Env)
    requires b <= o < o + |operator| <= |text| && OnlyForAShell(operator, more)
    requires DigitsEnd(text, b) == o && NumberFrom(text, b, 0).Some?
    requires forall i | 0 <= i < |operator| :: At(text, o + i) == operator[i]
    requires At(text, o + |operator|) == if more == "" then NUL else more[0]
    ensures IsRedirectStart(text, b) && RedirectAt(text, b, env) == Err(Error(Unsupported, b))
  {
    hide DigitsEnd, NumberFrom, Word;
    assert At(text, o) == operator[0] && At(text, o + 1) == operator[1];
    if operator == ">>&" {
      assert operator[2] == '&';
    }
  }

  lemma AtBadRedirect(text: string, p: nat, b: nat, so: Parsed, env: Env)
    requires p <= |text| && b == SkipBlanks(text, p) && b < |text| && text[b] != NUL && text[b] != '#' && IsRedirectStart(text, b)
    requires RedirectAt(text, b, env).Err?
    ensures LineFrom(text, p, so, env) == Err(RedirectAt(text, b, env).error)
  {
    hide RedirectAt;
  }

  // A descriptor after an ampersand ends there, or it is an error for any shell.
  lemma MoreThanADescriptor(line: seq<Piece>, gap: string, number: string, input: bool, source: string, more: string, env: Env,
                            fallback: bool)
    requires GoodLine(line, env) && Spaces(gap) && (line == [] || gap != "")
    requires IsNumber(number) && IsNumber(source) && source != ""
    requires more != "" && !IsSpace(more[0]) && more[0] !in "<>\0" && !('0' <= more[0] <= '9')
    ensures var text := SpellLine(line) + (gap + (number + ((if input then "<&" else ">&") + (source + more))));
      Parse(text, env, fallback) == Failed(Error(Syntax, |text| - |more|))
  {
    hide SpellLine, GoodLine, SaysAll, Stands, LineFrom, IsNumber, IsSpace, RedirectAt, IsRedirectStart;
    var sign := if input then "<&" else ">&";
    var tail := sign + (source + more);
    var after := number + tail;
    var text := SpellLine(line) + (gap + after);
    var b := |SpellLine(line)| + |gap|;
    FirstOfNumber(number, tail);
    AfterParts(text, line, gap, after, env);
    BadSource(text, b, number, input, source, more, env);
    AtBadRedirect(text, |SpellLine(line)|, b, SaysAll(NOTHING, line, env), env);
  }

  lemma BadSource(text: string, b: nat, number: string, input: bool, source: string, more: string, env: Env)
    requires IsNumber(number) && IsNumber(source) && source != ""
    requires more != "" && !IsSpace(more[0]) && more[0] !in "<>\0" && !('0' <= more[0] <= '9')
    requires var after := number + ((if input then "<&" else ">&") + (source + more)); Stands(text, b, after) && b + |after| == |text|
    ensures b < |text| && text[b] != NUL && text[b] != '#' && IsRedirectStart(text, b)
    ensures RedirectAt(text, b, env) == Err(Error(Syntax, |text| - |more|))
  {
    hide Stands, Worth, Digits, IsNumber, IsSpace, RedirectAt, IsRedirectStart, NumberFrom, DigitsEnd, TargetAt;
    var o := b + |number|;
    Split(text, b, number, (if input then "<&" else ">&") + (source + more));
    Split(text, o, if input then "<&" else ">&", source + more);
    Split(text, o + 2, source, more);
    StandsAt(text, o, if input then "<&" else ">&", 0);
    StandsAt(text, o, if input then "<&" else ">&", 1);
    NumbersAreDigits(number);
    NumbersAreDigits(source);
    ReadNumberAt(text, b, number);
    ReadNumberAt(text, o + 2, source);
    AtOperator(text, b, o);
    DuplicateIs(text, b, number, input, env);
    GoesOnWrongly(more[0]);
    NoEndOfTarget(text, b, o + 1, if number != "" then Worth(number) else if input then 0 else 1, input, source, env);
  }

  lemma GoesOnWrongly(c: char)
    requires !IsSpace(c) && c !in "<>\0"
    ensures !EndsWord(c)
  {
  }

  lemma NoEndOfTarget(text: string, op: nat, q: nat, fd: nat, input: bool, source: string, env: Env)
    requires op <= q < |text| && text[q] == '&' && IsDigit(At(text, q + 1))
    requires Digits(source) && DigitsEnd(text, q + 1) == q + 1 + |source| && NumberFrom(text, q + 1, 0) == Some(Worth(source))
    requires !EndsWord(At(text, q + 1 + |source|))
    ensures TargetAt(text, op, q, fd, input, false, env) == Err(Error(Syntax, q + 1 + |source|))
  {
    hide Word, Worth, NumberFrom, DigitsEnd;
  }

  // A redirection to a file without a name is an error for any shell.
  lemma NoFileName(line: seq<Piece>, gap: string, number: string, how: How, between: string, target: seq<Chunk>, env: Env,
                   fallback: bool)
    requires GoodLine(line, env) && Spaces(gap) && (line == [] || gap != "")
    requires IsNumber(number) && Spaces(between) && GoodWord(target) && Said(WordUnits(target, false, env)) == ""
    ensures var text := SpellLine(line) + (gap + (number + (Operator(how) + (between + SpellWord(target)))));
      Parse(text, env, fallback) == Failed(Error(Syntax, |SpellLine(line)| + |gap|))
  {
    hide SpellLine, GoodLine, SaysAll, Stands, LineFrom, Worth, Digits, IsNumber, SpellWord, GoodWord, WordUnits, Said, Operator,
      TargetAt, RedirectAt, NumberFrom, DigitsEnd, IsRedirectStart;
    var rest := between + SpellWord(target);
    var tail := Operator(how) + rest;
    var after := number + tail;
    var text := SpellLine(line) + (gap + after);
    var b := |SpellLine(line)| + |gap|;
    var o := b + |number|;
    OperatorFirst(how, rest);
    FirstOfNumber(number, tail);
    AfterParts(text, line, gap, after, env);
    Split(text, b, number, tail);
    Split(text, o, Operator(how), rest);
    NumbersAreDigits(number);
    ReadNumberAt(text, b, number);
    AtOperator(text, b, o);
    FirstOfTarget(between, target);
    AfterNothing(text, o, how, rest);
    RedirectIs(text, b, number, how, env);
    var fd := if number != "" then Worth(number) else if how.Reads? then 0 else 1;
    NoTarget(text, b, o + |Operator(how)|, fd, how, between, target, env);
    AtBadRedirect(text, |SpellLine(line)|, b, SaysAll(NOTHING, line, env), env);
  }

  lemma OperatorFirst(how: How, rest: string)
    ensures var tail := Operator(how) + rest; tail != "" && tail[0] == if how.Reads? then '<' else '>'
  {
  }

  lemma FirstOfTarget(gap: string, target: seq<Chunk>)
    requires Spaces(gap) && GoodWord(target)
    ensures var rest := gap + SpellWord(target); rest == "" || rest[0] !in "<>|&"
    ensures SpellWord(target) == "" || !IsSpace(SpellWord(target)[0])
  {
    hide SpellWord, GoodWord;
    if SpellWord(target) != "" {
      FirstOfWord(target);
      FirstIsPlain(SpellWord(target)[0]);
    }
  }

  lemma AfterNothing(text: string, o: nat, how: How, rest: string)
    requires Stands(text, o, Operator(how)) && Stands(text, o + |Operator(how)|, rest) && o + |Operator(how)| + |rest| == |text|
    requires rest == "" || rest[0] !in "<>|&"
    ensures At(text, o) == (if how.Reads? then '<' else '>')
    ensures if how.Appends? then At(text, o + 1) == '>' else At(text, o + 1) !in "<>|"
    ensures At(text, o + |Operator(how)|) != '&'
  {
    StandsAt(text, o, Operator(how), 0);
    if how.Appends? {
      StandsAt(text, o, Operator(how), 1);
    }
    if rest != "" {
      StandsAt(text, o + |Operator(how)|, rest, 0);
    }
  }

  lemma NoTarget(text: string, op: nat, q: nat, fd: nat, how: How, gap: string, target: seq<Chunk>, env: Env)
    requires op <= q <= |text| && Spaces(gap) && GoodWord(target) && Said(WordUnits(target, false, env)) == ""
    requires Stands(text, q, gap + SpellWord(target)) && q + |gap| + |SpellWord(target)| == |text| && At(text, q) != '&'
    ensures TargetAt(text, op, q, fd, how.Reads?, how.Appends?, env) == Err(Error(Syntax, op))
  {
    hide Word, Fields, Stands, WordUnits, SpellWord, GoodWord, Over, Said, Unsplit;
    var b, us := q + |gap|, WordUnits(target, false, env);
    Split(text, q, gap, SpellWord(target));
    FirstOfTarget(gap, target);
    OverSpaces(text, q, gap);
    ReadWord(text, b, target, false, env);
    NeverSplit(target, env);
    FieldsOfOne(us);
  }
}
