// parse_word and expand_dollar of src/yc-shell.c: the word is expanded and
// split in one pass, with a cursor and growing strings.
module ShellWords {
  import opened Basics
  import opened ShellSyntax

  class ParseState {
    const text: string
    var p: nat

    constructor (text: string)
      ensures this.text == text && p == 0
    {
      this.text, p := text, 0;
    }

    ghost predicate Valid()
      reads this
    {
      CString(text) && p <= |text|
    }

    // *p
    function Here(): char
      reads this
    {
      At(text, p)
    }
  }

  // A growable string.
  class Str {
    var data: string

    constructor ()
      ensures data == ""
    {
      data := "";
    }

    method Append(s: string)
      modifies this
      ensures data == old(data) + s
    {
      data := data + s;
    }

    method Steal() returns (s: string)
      modifies this
      ensures s == old(data) && data == ""
    {
      s := data;
      data := "";
    }
  }

  // A growable vector of strings.
  class Argv {
    var argv: seq<string>

    constructor ()
      ensures argv == []
    {
      argv := [];
    }

    method Push(s: string)
      modifies this
      ensures argv == old(argv) + [s]
    {
      argv := argv + [s];
    }
  }

  // The word under construction and the fields already out stand for `us`.
  ghost predicate Tracks(us: seq<Unit>, word: string, content: bool, fields: seq<string>, before: seq<string>) {
    && word == Text(Open(us))
    && (content || word != "" <==> Open(us) != [])
    && fields == before + Closed(us)
  }

  lemma {:induction false} PlainUnits(us: seq<Unit>, vs: seq<Unit>)
    requires forall v | v in vs :: !Separates(v)
    ensures Open(us + vs) == Open(us) + vs && Closed(us + vs) == Closed(us)
  {
    hide Open, Closed;
    if vs == [] {
      assert us + vs == us && Open(us) + vs == Open(us);
    } else {
      var k := |vs| - 1;
      var init, v := vs[..k], vs[k];
      assert vs == init + [v];
      PlainUnits(us, init);
      OneUnit(us + init, v);
      assert us + vs == (us + init) + [v];
      assert Open(us) + vs == (Open(us) + init) + [v];
    }
  }

  lemma {:induction false} TextOfUnits(s: string, splittable: bool)
    ensures Text(Units(s, splittable)) == s
  {
    if s != "" {
      assert Units(s, splittable)[1..] == Units(s[1..], splittable);
      TextOfUnits(s[1..], splittable);
    }
  }

  // A whole string is appended, none of it splittable.
  lemma TrackPlain(us: seq<Unit>, word: string, content: bool, fields: seq<string>, before: seq<string>, s: string)
    requires Tracks(us, word, content, fields, before)
    ensures Tracks(us + Units(s, false), word + s, content, fields, before)
  {
    hide Open, Closed, Pieces, Text;
    PlainUnits(us, Units(s, false));
    TextOfUnits(s, false);
    TextConcat(Open(us), Units(s, false));
  }

  // A byte that separates nothing, and is noted as content.
  lemma TrackByte(us: seq<Unit>, word: string, content: bool, fields: seq<string>, before: seq<string>,
                  c: char, splittable: bool)
    requires Tracks(us, word, content, fields, before) && !Separates(Byte(c, splittable))
    ensures Tracks(us + [Byte(c, splittable)], word + [c], true, fields, before)
  {
    hide Open, Closed, Pieces;
    OneUnit(us, Byte(c, splittable));
  }

  lemma TrackQuotes(us: seq<Unit>, word: string, content: bool, fields: seq<string>, before: seq<string>)
    requires Tracks(us, word, content, fields, before)
    ensures Tracks(us + [Quotes], word, true, fields, before)
  {
    hide Open, Closed, Pieces;
    OneUnit(us, Quotes);
    assert Text(Open(us)) + "" == Text(Open(us));
  }

  lemma TrackBreak(us: seq<Unit>, word: string, content: bool, fields: seq<string>, before: seq<string>, u: Unit)
    requires Tracks(us, word, content, fields, before) && Separates(u)
    ensures content || word != "" ==> Tracks(us + [u], "", false, fields + [word], before)
    ensures !(content || word != "") ==> Tracks(us + [u], word, content, fields, before)
  {
    hide Open, Closed, Pieces;
    OneUnit(us, u);
  }

  lemma TrackStart(before: seq<string>)
    ensures Tracks([], "", false, before, before)
  {
    NoUnits();
  }

  // A word that has begun shows it, in one of two ways.
  lemma TrackBegun(us: seq<Unit>, word: string, content: bool, fields: seq<string>, before: seq<string>)
    requires Tracks(us, word, content, fields, before)
    ensures AtFieldStart(us) <==> !content && word == ""
  {
  }

  lemma TrackEnd(us: seq<Unit>, word: string, content: bool, fields: seq<string>, before: seq<string>)
    requires Tracks(us, word, content, fields, before)
    ensures fields + (if content || word != "" then [word] else []) == before + Fields(us)
  {
    LastField(us);
  }

  // The name that follows a '$', or None if it does not fit.
  method ReadName(st: ParseState) returns (name: Option<string>)
    requires st.Valid() && IsNameStart(st.Here())
    modifies st`p
    ensures st.Valid()
    ensures var e := NameEnd(st.text, old(st.p));
      if e - old(st.p) > MAX_NAME then name.None?
      else st.p == e && name == Some(st.text[old(st.p)..e])
  {
    var read := "";
    while IsNameChar(st.Here())
      invariant st.Valid() && old(st.p) <= st.p && |read| <= MAX_NAME
      invariant read == st.text[old(st.p)..st.p] && NameEnd(st.text, old(st.p)) == NameEnd(st.text, st.p)
      decreases |st.text| - st.p
    {
      if |read| == MAX_NAME {
        return None;
      }
      read := read + [st.Here()];
      st.p := st.p + 1;
    }
    name := Some(read);
  }

  // The '$' and what follows it; positions of errors are as in ParameterAt.
  method ReadParameter(st: ParseState) returns (r: Result<Parameter>)
    requires st.Valid() && st.Here() == '$'
    modifies st`p
    ensures st.Valid()
    ensures match ParameterAt(st.text, old(st.p))
      case Ok(found) => r == Ok(found.what) && st.p == found.next
      case Err(e) => r == Err(e)
  {
    var dollarAt := st.p;
    var braced := false;
    st.p := st.p + 1;
    if st.Here() == '{' {
      braced := true;
      st.p := st.p + 1;
    } else if st.Here() == '(' {
      st.p := dollarAt;
      return Err(Error(Unsupported, st.p));
    }
    if !IsNameStart(st.Here()) {
      if braced || IsSpecialParameter(st.Here()) {
        st.p := dollarAt;
        return Err(Error(Unsupported, st.p));
      }
      return Ok(Dollar);
    }
    var name := ReadName(st);
    if name.None? {
      st.p := dollarAt;
      return Err(Error(Unsupported, st.p));
    }
    if braced {
      if st.Here() != '}' {
        return Err(Error(Unsupported, st.p));
      }
      st.p := st.p + 1;
    }
    r := Ok(Variable(name.value));
  }

  // At a '$': the value is appended to the word, and splits it if `split`.
  method ExpandDollar(st: ParseState, word: Str, content: bool, split: bool, out: Argv, env: Env,
                      ghost us: seq<Unit>, ghost before: seq<string>)
      returns (error: Option<Error>, content': bool)
    requires st.Valid() && st.Here() == '$' && Tracks(us, word.data, content, out.argv, before)
    modifies st`p, word, out
    ensures st.Valid() && (!split ==> out.argv == old(out.argv) && (content ==> content'))
    ensures match ParameterAt(st.text, old(st.p))
      case Err(e) => error == Some(e)
      case Ok(found) =>
        && error == None && st.p == found.next
        && Tracks(us + Expansion(env, found.what, split), word.data, content', out.argv, before)
  {
    hide Tracks, ParameterAt;
    content' := content;
    var r := ReadParameter(st);
    if r.Err? {
      return Some(r.error), content';
    }
    if r.value.Dollar? {
      TrackByte(us, word.data, content, out.argv, before, '$', false);
      word.Append("$");
      return None, true;
    }
    var value := ValueOf(env, r.value);
    if !split {
      TrackPlain(us, word.data, content, out.argv, before, value);
      word.Append(value);
      return None, content';
    }
    ghost var units := Units(value, true);
    assert us + units[..0] == us;
    for i := 0 to |value|
      invariant st.p == ParameterAt(st.text, old(st.p)).value.next
      invariant Tracks(us + units[..i], word.data, content', out.argv, before)
    {
      ghost var so := us + units[..i];
      assert us + units[..i + 1] == so + [units[i]];
      if IsBlank(value[i]) {
        TrackBreak(so, word.data, content', out.argv, before, units[i]);
        if content' || |word.data| > 0 {
          var field := word.Steal();
          out.Push(field);
          content' := false;
        }
      } else {
        TrackByte(so, word.data, content', out.argv, before, value[i], true);
        word.Append([value[i]]);
        content' := true;
      }
    }
    assert units[..|value|] == units;
    error := None;
  }

  // After a single quote, up to the closing one.
  method ReadSingle(st: ParseState, word: Str, ghost us: seq<Unit>, ghost fields: seq<string>, ghost before: seq<string>)
      returns (error: Option<Error>)
    requires st.Valid() && Tracks(us, word.data, true, fields, before)
    modifies st`p, word
    ensures st.Valid()
    ensures match Single(st.text, old(st.p), us)
      case Err(e) => error == Some(e)
      case Ok(found) => error == None && st.p == found.next && Tracks(found.what, word.data, true, fields, before)
  {
    hide Tracks;
    ghost var so := us;
    while st.Here() != '\''
      invariant st.Valid() && Tracks(so, word.data, true, fields, before)
      invariant Single(st.text, st.p, so) == Single(st.text, old(st.p), us)
      decreases |st.text| - st.p
    {
      if st.Here() == NUL {
        return Some(Error(Syntax, st.p));
      }
      TrackByte(so, word.data, true, fields, before, st.Here(), false);
      so := so + [Byte(st.Here(), false)];
      word.Append([st.Here()]);
      st.p := st.p + 1;
    }
    st.p := st.p + 1;
    error := None;
  }

  // After a double quote, up to the closing one.
  method ReadDouble(st: ParseState, word: Str, out: Argv, env: Env, ghost us: seq<Unit>, ghost before: seq<string>)
      returns (error: Option<Error>)
    requires st.Valid() && Tracks(us, word.data, true, out.argv, before)
    modifies st`p, word, out
    ensures st.Valid() && out.argv == old(out.argv)
    ensures match Double(st.text, old(st.p), us, env)
      case Err(e) => error == Some(e)
      case Ok(found) => error == None && st.p == found.next && Tracks(found.what, word.data, true, out.argv, before)
  {
    hide Tracks;
    ghost var so := us;
    while true
      invariant st.Valid() && Tracks(so, word.data, true, out.argv, before) && out.argv == old(out.argv)
      invariant Double(st.text, st.p, so, env) == Double(st.text, old(st.p), us, env)
      decreases |st.text| - st.p
    {
      if st.Here() == NUL {
        return Some(Error(Syntax, st.p));
      }
      if st.Here() == '"' {
        st.p := st.p + 1;
        return None;
      }
      if st.Here() == '\\' {
        var next := At(st.text, st.p + 1);
        if IsEscapable(next) {
          TrackByte(so, word.data, true, out.argv, before, next, false);
          so := so + [Byte(next, false)];
          word.Append([next]);
          st.p := st.p + 2;
        } else if next == '\n' {
          st.p := st.p + 2;
        } else {
          TrackByte(so, word.data, true, out.argv, before, st.Here(), false);
          so := so + [Byte(st.Here(), false)];
          word.Append([st.Here()]);
          st.p := st.p + 1;
        }
        continue;
      }
      if st.Here() == '`' {
        return Some(Error(Unsupported, st.p));
      }
      if st.Here() == '$' {
        ghost var found := ParameterAt(st.text, st.p);
        var failed, content := ExpandDollar(st, word, true, false, out, env, so, before);
        if failed.Some? {
          return failed;
        }
        so := so + Expansion(env, found.value.what, false);
        continue;
      }
      TrackByte(so, word.data, true, out.argv, before, st.Here(), false);
      so := so + [Byte(st.Here(), false)];
      word.Append([st.Here()]);
      st.p := st.p + 1;
    }
  }

  // One word; its fields go to the end of `out`.
  method ParseWord(st: ParseState, split: bool, out: Argv, env: Env) returns (error: Option<Error>)
    requires st.Valid()
    modifies st`p, out
    ensures st.Valid()
    ensures match Word(st.text, old(st.p), [], split, env)
      case Err(e) => error == Some(e)
      case Ok(found) => error == None && st.p == found.next && out.argv == old(out.argv) + Fields(found.what)
  {
    hide Tracks, ParameterAt, Fields, AtFieldStart, Single, Double;
    var word := new Str();
    var content, done := false, false;
    ghost var so: seq<Unit>, before := [], out.argv;
    TrackStart(before);
    while !done
      invariant st.Valid() && Tracks(so, word.data, content, out.argv, before) && fresh(word)
      invariant Word(st.text, st.p, so, split, env) == Word(st.text, old(st.p), [], split, env)
      invariant done ==> EndsWord(st.Here())
      decreases |st.text| - st.p, if done then 0 else 1
    {
      var c := st.Here();
      TrackBegun(so, word.data, content, out.argv, before);
      if EndsWord(c) {
        done := true;
      } else if c == '\'' {
        st.p := st.p + 1;
        TrackQuotes(so, word.data, content, out.argv, before);
        content := true;
        ghost var found := Single(st.text, st.p, so + [Quotes]);
        var failed := ReadSingle(st, word, so + [Quotes], out.argv, before);
        if failed.Some? {
          return failed;
        }
        so := found.value.what;
      } else if c == '"' {
        st.p := st.p + 1;
        TrackQuotes(so, word.data, content, out.argv, before);
        content := true;
        ghost var found := Double(st.text, st.p, so + [Quotes], env);
        var failed := ReadDouble(st, word, out, env, so + [Quotes], before);
        if failed.Some? {
          return failed;
        }
        so := found.value.what;
      } else if c == '\\' {
        var next := At(st.text, st.p + 1);
        if next == NUL {
          return Some(Error(Syntax, st.p));
        }
        if next != '\n' {
          TrackByte(so, word.data, content, out.argv, before, next, false);
          so := so + [Byte(next, false)];
          word.Append([next]);
          content := true;
        }
        st.p := st.p + 2;
      } else if c == '$' {
        ghost var found := ParameterAt(st.text, st.p);
        var failed;
        failed, content := ExpandDollar(st, word, content, split, out, env, so, before);
        if failed.Some? {
          return failed;
        }
        so := so + Expansion(env, found.value.what, split);
      } else if NeedsShell(c) || (c == '~' && !content && |word.data| == 0) {
        return Some(Error(Unsupported, st.p));
      } else {
        TrackByte(so, word.data, content, out.argv, before, c, false);
        so := so + [Byte(c, false)];
        word.Append([c]);
        content := true;
        st.p := st.p + 1;
      }
    }
    TrackEnd(so, word.data, content, out.argv, before);
    if content || |word.data| > 0 {
      var field := word.Steal();
      out.Push(field);
    }
    error := None;
  }
}
