// A whole command line: src/yc-shell.c from parse_assignment on.
module ShellLine {
  import opened Basics
  import opened ShellSyntax
  import opened ShellWords
  import opened ShellRedirections

  // The largest plausible descriptor.
  const MAX_FD := 1024

  // ---- lexical helpers ----

  function SkipBlanks(text: string, p: nat): (q: nat)
    ensures p <= q && (p <= |text| ==> q <= |text|) && !IsBlank(At(text, q))
    ensures forall i | p <= i < q :: IsBlank(At(text, i))
    decreases |text| - p
  {
    if IsBlank(At(text, p)) then SkipBlanks(text, p + 1) else p
  }

  function DigitsEnd(text: string, p: nat): (q: nat)
    ensures p <= q && (p <= |text| ==> q <= |text|) && !IsDigit(At(text, q))
    ensures forall i | p <= i < q :: IsDigit(At(text, i))
    decreases |text| - p
  {
    if IsDigit(At(text, p)) then DigitsEnd(text, p + 1) else p
  }

  // Digits are a descriptor only right before the operator.
  predicate IsRedirectStart(text: string, p: nat) {
    At(text, DigitsEnd(text, p)) == '<' || At(text, DigitsEnd(text, p)) == '>'
  }

  function DigitValue(c: char): nat
    requires IsDigit(c)
  {
    (c as int) - ('0' as int)
  }

  // The number at p after digits worth `so`; nothing if it is implausible.
  function NumberFrom(text: string, p: nat, so: nat): (n: Option<nat>)
    ensures n.Some? && so <= MAX_FD ==> n.value <= MAX_FD
    decreases |text| - p
  {
    if !IsDigit(At(text, p)) then Some(so)
    else
      var more := so * 10 + DigitValue(At(text, p));
      if more > MAX_FD then None else NumberFrom(text, p + 1, more)
  }

  // The length of 'NAME=' if an assignment starts here, or 0.
  function AssignmentLength(text: string, p: nat): (n: nat)
    ensures n > 0 ==> p + n <= |text| && text[p + n - 1] == '='
    ensures n > 0 ==> forall i | p <= i < p + n - 1 :: IsNameChar(At(text, i))
  {
    if !IsNameStart(At(text, p)) then 0
    else
      var e := NameEnd(text, p);
      if At(text, e) == '=' then e - p + 1 else 0
  }

  // ---- what a line says ----

  datatype Parsed = Parsed(args: seq<string>, assigns: seq<string>, redirects: seq<Redirect>)

  // After the operator; `op` is where the redirection began.
  function TargetAt(text: string, op: nat, q: nat, fd: nat, input: bool, append: bool, env: Env): (r: Result<Found<Redirect>>)
    requires op <= q <= |text|
    ensures r.Ok? ==> q <= r.value.next <= |text| && (fd <= MAX_FD ==> r.value.what.fd <= MAX_FD)
    ensures r.Err? ==> r.error.position <= |text| && (r.error.code.Syntax? || r.error.code.Unsupported?)
  {
    if At(text, q) == '&' then
      var target, e := NumberFrom(text, q + 1, 0), DigitsEnd(text, q + 1);
      if !IsDigit(At(text, q + 1)) || target.None? then Err(Error(Unsupported, op))
      else if !EndsWord(At(text, e)) then Err(Error(Syntax, e))
      else Ok(Found(Dup(fd, input, target.value), e))
    else
      match Word(text, SkipBlanks(text, q), [], false, env)
      case Err(e) => Err(e)
      case Ok(found) =>
        var names := Fields(found.what);
        if names == [] || names[0] == "" then Err(Error(Syntax, op))
        else Ok(Found(File(fd, input, append, names[0]), found.next))
  }

  function RedirectAt(text: string, p: nat, env: Env): (r: Result<Found<Redirect>>)
    requires p <= |text| && IsRedirectStart(text, p)
    ensures r.Ok? ==> p < r.value.next <= |text| && r.value.what.fd <= MAX_FD
    ensures r.Err? ==> r.error.position <= |text| && (r.error.code.Syntax? || r.error.code.Unsupported?)
  {
    var o := DigitsEnd(text, p);
    var given, after := NumberFrom(text, p, 0), At(text, o + 1);
    if given.None? then Err(Error(Unsupported, p))
    else if At(text, o) == '<' then
      if after == '<' || after == '>' then Err(Error(Unsupported, p))
      else TargetAt(text, p, o + 1, if o > p then given.value else 0, true, false, env)
    else if after == '|' then Err(Error(Unsupported, p))
    else
      TargetAt(text, p, if after == '>' then o + 2 else o + 1, if o > p then given.value else 1,
               false, after == '>', env)
  }

  // 'NAME=' is taken as it stands; the value expands to one field or none.
  function AssignmentAt(text: string, p: nat, env: Env): (r: Result<Found<string>>)
    requires p <= |text| && AssignmentLength(text, p) > 0
    ensures r.Ok? ==> p < r.value.next <= |text|
    ensures r.Err? ==> r.error.position <= |text| && (r.error.code.Syntax? || r.error.code.Unsupported?)
  {
    var v := p + AssignmentLength(text, p);
    match Word(text, v, [], false, env)
    case Err(e) => Err(e)
    case Ok(found) =>
      var values := Fields(found.what);
      Ok(Found(text[p..v] + (if values == [] then "" else values[0]), found.next))
  }

  function LineFrom(text: string, p: nat, so: Parsed, env: Env): (r: Result<Found<Parsed>>)
    requires p <= |text|
    ensures r.Ok? ==> p <= r.value.next <= |text|
    ensures r.Err? ==> r.error.position <= |text| && (r.error.code.Syntax? || r.error.code.Unsupported?)
    decreases |text| - p
  {
    var b := SkipBlanks(text, p);
    if At(text, b) == NUL || At(text, b) == '#' then Ok(Found(so, b))
    else if IsRedirectStart(text, b) then
      match RedirectAt(text, b, env)
      case Err(e) => Err(e)
      case Ok(found) => LineFrom(text, found.next, so.(redirects := so.redirects + [found.what]), env)
    else if so.args == [] && AssignmentLength(text, b) > 0 then
      match AssignmentAt(text, b, env)
      case Err(e) => Err(e)
      case Ok(found) => LineFrom(text, found.next, so.(assigns := so.assigns + [found.what]), env)
    else
      match Word(text, b, [], true, env)
      case Err(e) => Err(e)
      case Ok(found) => LineFrom(text, found.next, so.(args := so.args + Fields(found.what)), env)
  }

  const NOTHING := Parsed([], [], [])

  ghost function Line(text: string, env: Env): (r: Result<Parsed>) {
    match LineFrom(text, 0, NOTHING, env)
    case Err(e) => Err(e)
    case Ok(found) =>
      if DupOrderOk(SlotsOf(found.what.redirects)) then Ok(found.what) else Err(Error(Unsupported, found.next))
  }

  // A line spawned directly, one handed to 'sh -c', or an error.
  datatype Outcome = Direct(args: seq<string>, assigns: seq<string>, slots: seq<Slot>) | ShellC(cmdline: string) | Failed(error: Error)

  ghost function Parse(text: string, env: Env, fallback: bool): Outcome {
    match Line(text, env)
    case Err(e) => if e.code == Unsupported && fallback then ShellC(text) else Failed(e)
    case Ok(line) =>
      if line.args != [] then Direct(line.args, line.assigns, SlotsOf(line.redirects))
      else Failed(Error(if line.assigns != [] || SlotsOf(line.redirects) != [] then NoCommand else Empty, 0))
  }

  // ---- the program ----

  method SkipIfs(st: ParseState)
    requires st.Valid()
    modifies st`p
    ensures st.Valid() && st.p == SkipBlanks(st.text, old(st.p))
  {
    while IsBlank(st.Here())
      invariant st.Valid() && SkipBlanks(st.text, st.p) == SkipBlanks(st.text, old(st.p))
      decreases |st.text| - st.p
    {
      st.p := st.p + 1;
    }
  }

  // The digit loops of parse_redirect.
  method ReadNumber(st: ParseState) returns (n: Option<nat>)
    requires st.Valid()
    modifies st`p
    ensures st.Valid() && n == NumberFrom(st.text, old(st.p), 0)
    ensures n.Some? ==> st.p == DigitsEnd(st.text, old(st.p))
  {
    var v: nat := 0;
    while IsDigit(st.Here())
      invariant st.Valid() && DigitsEnd(st.text, st.p) == DigitsEnd(st.text, old(st.p))
      invariant NumberFrom(st.text, st.p, v) == NumberFrom(st.text, old(st.p), 0)
      decreases |st.text| - st.p
    {
      v := v * 10 + DigitValue(st.Here());
      if v > MAX_FD {
        return None;
      }
      st.p := st.p + 1;
    }
    n := Some(v);
  }

  // is_redirect_start
  method AtRedirect(st: ParseState) returns (yes: bool)
    requires st.Valid()
    ensures yes <==> IsRedirectStart(st.text, st.p)
  {
    var p := st.p;
    while IsDigit(At(st.text, p))
      invariant DigitsEnd(st.text, p) == DigitsEnd(st.text, st.p)
      decreases |st.text| - p
    {
      p := p + 1;
    }
    yes := At(st.text, p) == '<' || At(st.text, p) == '>';
  }

  // assignment_name_length
  method MeasureAssignment(st: ParseState) returns (n: nat)
    requires st.Valid()
    ensures n == AssignmentLength(st.text, st.p)
  {
    if !IsNameStart(st.Here()) {
      return 0;
    }
    var i := 1;
    while IsNameChar(At(st.text, st.p + i))
      invariant i >= 1 && NameEnd(st.text, st.p + i) == NameEnd(st.text, st.p)
      decreases |st.text| - (st.p + i)
    {
      i := i + 1;
    }
    n := if At(st.text, st.p + i) == '=' then i + 1 else 0;
  }

  method ParseAssignment(st: ParseState, assigns: Argv, env: Env) returns (error: Option<Error>)
    requires st.Valid() && AssignmentLength(st.text, st.p) > 0
    modifies st`p, assigns
    ensures st.Valid()
    ensures match AssignmentAt(st.text, old(st.p), env)
      case Err(e) => error == Some(e)
      case Ok(found) => error == None && st.p == found.next && assigns.argv == old(assigns.argv) + [found.what]
  {
    hide Word, Fields, AssignmentLength;
    var value := new Argv();
    var acc := new Str();
    var n := MeasureAssignment(st);
    acc.Append(st.text[st.p..st.p + n]);
    ghost var name := st.text[st.p..st.p + n];
    assert acc.data == name && name + "" == name;
    st.p := st.p + n;
    error := ParseWord(st, false, value, env);
    if error.Some? {
      return;
    }
    assert value.argv == Fields(Word(st.text, old(st.p) + n, [], false, env).value.what);
    if |value.argv| > 0 {
      acc.Append(value.argv[0]);
    }
    var assignment := acc.Steal();
    assigns.Push(assignment);
  }

  // The part of parse_redirect that follows the operator.
  method ParseTarget(st: ParseState, fdmap: FdMap, order: nat, op: nat, fd: nat, input: bool, append: bool, env: Env)
      returns (error: Option<Error>)
    requires st.Valid() && op <= st.p
    modifies st`p, fdmap
    ensures st.Valid()
    ensures match TargetAt(st.text, op, old(st.p), fd, input, append, env)
      case Err(e) => error == Some(e)
      case Ok(found) =>
        && error == None && st.p == found.next
        && fdmap.slots == if Effective(found.what) then Put(old(fdmap.slots), Slot(found.what, order)) else old(fdmap.slots)
  {
    hide Word, Fields, Put, SlotsOf;
    if st.Here() == '&' {
      st.p := st.p + 1;
      if !IsDigit(st.Here()) {
        return Some(Error(Unsupported, op));
      }
      var target := ReadNumber(st);
      if target.None? {
        return Some(Error(Unsupported, op));
      }
      if !EndsWord(st.Here()) {
        return Some(Error(Syntax, st.p));
      }
      if target.value == fd {
        return None;
      }
      fdmap.Set(Dup(fd, input, target.value), order);
      return None;
    }
    SkipIfs(st);
    var target := new Argv();
    error := ParseWord(st, false, target, env);
    if error.Some? {
      return;
    }
    if |target.argv| == 0 || target.argv[0] == "" {
      return Some(Error(Syntax, op));
    }
    fdmap.Set(File(fd, input, append, target.argv[0]), order);
  }

  method ParseRedirect(st: ParseState, fdmap: FdMap, order: nat, env: Env) returns (error: Option<Error>)
    requires st.Valid() && IsRedirectStart(st.text, st.p)
    modifies st`p, fdmap
    ensures st.Valid()
    ensures match RedirectAt(st.text, old(st.p), env)
      case Err(e) => error == Some(e)
      case Ok(found) =>
        && error == None && st.p == found.next
        && fdmap.slots == if Effective(found.what) then Put(old(fdmap.slots), Slot(found.what, order)) else old(fdmap.slots)
  {
    hide TargetAt, Put, SlotsOf;
    var op := st.p;
    var fd := None;
    if IsDigit(st.Here()) {
      fd := ReadNumber(st);
      if fd.None? {
        return Some(Error(Unsupported, op));
      }
    }
    if st.Here() == '<' {
      st.p := st.p + 1;
      if st.Here() == '<' || st.Here() == '>' {
        return Some(Error(Unsupported, op));
      }
      error := ParseTarget(st, fdmap, order, op, if fd.Some? then fd.value else 0, true, false, env);
    } else {
      var append := false;
      st.p := st.p + 1;
      if st.Here() == '>' {
        append := true;
        st.p := st.p + 1;
      } else if st.Here() == '|' {
        return Some(Error(Unsupported, op));
      }
      error := ParseTarget(st, fdmap, order, op, if fd.Some? then fd.value else 1, false, append, env);
    }
  }

  // parse_line, without its last check.
  method ParseItems(st: ParseState, args: Argv, assigns: Argv, fdmap: FdMap, env: Env)
      returns (error: Option<Error>, ghost redirects: seq<Redirect>)
    requires st.Valid() && args != assigns && args.argv == [] && assigns.argv == [] && fdmap.slots == []
    modifies st`p, args, assigns, fdmap
    ensures st.Valid()
    ensures match LineFrom(st.text, old(st.p), NOTHING, env)
      case Err(e) => error == Some(e)
      case Ok(found) =>
        && error == None && st.p == found.next && found.what == Parsed(args.argv, assigns.argv, redirects)
        && fdmap.slots == SlotsOf(redirects)
  {
    hide Word, Fields, Put, SlotsOf, RedirectAt, AssignmentAt, AssignmentLength, SkipBlanks;
    var order := 0;
    redirects := [];
    NoSlots();
    while true
      invariant st.Valid() && order == |redirects| && fdmap.slots == SlotsOf(redirects)
      invariant LineFrom(st.text, st.p, Parsed(args.argv, assigns.argv, redirects), env)
             == LineFrom(st.text, old(st.p), NOTHING, env)
      decreases |st.text| - st.p
    {
      SkipIfs(st);
      if st.Here() == NUL || st.Here() == '#' {
        return None, redirects;
      }
      var redirect := AtRedirect(st);
      var n := MeasureAssignment(st);
      if redirect {
        order := order + 1;
        ghost var found := RedirectAt(st.text, st.p, env);
        error := ParseRedirect(st, fdmap, order, env);
        if error.Some? {
          return;
        }
        SlotsOfMore(redirects, found.value.what);
        redirects := redirects + [found.value.what];
      } else if |args.argv| == 0 && n > 0 {
        error := ParseAssignment(st, assigns, env);
        if error.Some? {
          return;
        }
      } else {
        error := ParseWord(st, true, args, env);
        if error.Some? {
          return;
        }
      }
    }
  }

  lemma NoSlots()
    ensures SlotsOf([]) == []
  {
  }

  lemma SlotsOfMore(rs: seq<Redirect>, r: Redirect)
    ensures SlotsOf(rs + [r]) == if Effective(r) then Put(SlotsOf(rs), Slot(r, |rs| + 1)) else SlotsOf(rs)
  {
    assert (rs + [r])[..|rs|] == rs;
  }

  // yc_shell_parse
  method ShellParse(cmdline: string, env: Env, fallback: bool) returns (outcome: Outcome)
    requires CString(cmdline)
    ensures outcome == Parse(cmdline, env, fallback)
  {
    var st := new ParseState(cmdline);
    var args := new Argv();
    var assigns := new Argv();
    var fdmap := new FdMap();
    var error;
    ghost var redirects;
    error, redirects := ParseItems(st, args, assigns, fdmap, env);
    if error.None? {
      var ok := fdmap.CheckDupOrder();
      if !ok {
        error := Some(Error(Unsupported, st.p));
      }
    }
    if error.Some? {
      outcome := if error.value.code == Unsupported && fallback then ShellC(cmdline) else Failed(error.value);
      return;
    }
    if |args.argv| == 0 {
      outcome := Failed(Error(if |assigns.argv| > 0 || |fdmap.slots| > 0 then NoCommand else Empty, 0));
      return;
    }
    outcome := Direct(args.argv, assigns.argv, fdmap.slots);
  }

  // ---- which lines are called blank ----

  // A blank line, or a comment.
  predicate BlankOrComment(text: string) {
    var c := At(text, SkipBlanks(text, 0));
    c == NUL || c == '#'
  }

  // What a line is made of.
  datatype Item = Redirection(what: Redirect) | Assignment(text: string) | Words(fields: seq<string>)

  // A redirection of a descriptor to itself, or a word that expands to nothing.
  predicate IsNothing(item: Item) {
    match item
    case Redirection(r) => !Effective(r)
    case Assignment(_) => false
    case Words(fields) => fields == []
  }

  // The items from p on; assignments come before the first field only.
  ghost function ItemsFrom(text: string, p: nat, named: bool, env: Env): (r: Result<seq<Item>>)
    requires p <= |text|
    decreases |text| - p
  {
    var b := SkipBlanks(text, p);
    if At(text, b) == NUL || At(text, b) == '#' then Ok([])
    else if IsRedirectStart(text, b) then
      match RedirectAt(text, b, env)
      case Err(e) => Err(e)
      case Ok(found) => Before(Redirection(found.what), ItemsFrom(text, found.next, named, env))
    else if !named && AssignmentLength(text, b) > 0 then
      match AssignmentAt(text, b, env)
      case Err(e) => Err(e)
      case Ok(found) => Before(Assignment(found.what), ItemsFrom(text, found.next, named, env))
    else
      match Word(text, b, [], true, env)
      case Err(e) => Err(e)
      case Ok(found) =>
        var fields := Fields(found.what);
        Before(Words(fields), ItemsFrom(text, found.next, named || fields != [], env))
  }

  ghost function Before(item: Item, rest: Result<seq<Item>>): Result<seq<Item>> {
    if rest.Ok? then Ok([item] + rest.value) else rest
  }

  function ArgsOf(items: seq<Item>): seq<string> {
    if items == [] then [] else (if items[0].Words? then items[0].fields else []) + ArgsOf(items[1..])
  }

  function AssignsOf(items: seq<Item>): seq<string> {
    if items == [] then [] else (if items[0].Assignment? then [items[0].text] else []) + AssignsOf(items[1..])
  }

  function RedirectsOf(items: seq<Item>): seq<Redirect> {
    if items == [] then [] else (if items[0].Redirection? then [items[0].what] else []) + RedirectsOf(items[1..])
  }

  ghost predicate Gathers(so: Parsed, items: seq<Item>, all: Parsed) {
    && all.args == so.args + ArgsOf(items) && all.assigns == so.assigns + AssignsOf(items)
    && all.redirects == so.redirects + RedirectsOf(items)
  }

  // What a line says is what its items say, in order.
  lemma {:induction false} LineGathers(text: string, p: nat, so: Parsed, env: Env)
    requires p <= |text|
    ensures var items, line := ItemsFrom(text, p, so.args != [], env), LineFrom(text, p, so, env);
      && (items.Ok? <==> line.Ok?) && (line.Ok? ==> Gathers(so, items.value, line.value.what))
    decreases |text| - p
  {
    hide Word, Fields, RedirectAt, AssignmentAt, AssignmentLength, IsRedirectStart, SkipBlanks, Gathers;
    var b, named := SkipBlanks(text, p), so.args != [];
    if At(text, b) == NUL || At(text, b) == '#' {
      NothingGathered(so);
    } else if IsRedirectStart(text, b) {
      var found := RedirectAt(text, b, env);
      if found.Ok? {
        var item, more := Redirection(found.value.what), so.(redirects := so.redirects + [found.value.what]);
        LineGathers(text, found.value.next, more, env);
        GatherItem(so, item, more, ItemsFrom(text, found.value.next, named, env), LineFrom(text, found.value.next, more, env));
      }
    } else if !named && AssignmentLength(text, b) > 0 {
      var found := AssignmentAt(text, b, env);
      if found.Ok? {
        var item, more := Assignment(found.value.what), so.(assigns := so.assigns + [found.value.what]);
        LineGathers(text, found.value.next, more, env);
        GatherItem(so, item, more, ItemsFrom(text, found.value.next, named, env), LineFrom(text, found.value.next, more, env));
      }
    } else {
      var found := Word(text, b, [], true, env);
      WordBegins(text, b);
      if found.Ok? {
        var fields := Fields(found.value.what);
        var item, more := Words(fields), so.(args := so.args + fields);
        LineGathers(text, found.value.next, more, env);
        GatherItem(so, item, more, ItemsFrom(text, found.value.next, more.args != [], env),
                   LineFrom(text, found.value.next, more, env));
      }
    }
  }

  lemma WordBegins(text: string, p: nat)
    requires !IsBlank(At(text, p)) && At(text, p) != NUL && !IsRedirectStart(text, p)
    ensures !EndsWord(At(text, p))
  {
  }

  lemma NothingGathered(so: Parsed)
    ensures Gathers(so, [], so)
  {
  }

  // One item, and what the rest gathers.
  lemma GatherItem(so: Parsed, item: Item, more: Parsed, rest: Result<seq<Item>>, line: Result<Found<Parsed>>)
    requires more == match item
      case Redirection(r) => so.(redirects := so.redirects + [r])
      case Assignment(text) => so.(assigns := so.assigns + [text])
      case Words(fields) => so.(args := so.args + fields)
    requires (rest.Ok? <==> line.Ok?) && (line.Ok? ==> Gathers(more, rest.value, line.value.what))
    ensures line.Ok? ==> Before(item, rest).Ok? && Gathers(so, Before(item, rest).value, line.value.what)
    ensures Before(item, rest).Ok? <==> rest.Ok?
  {
    if line.Ok? {
      var items := [item] + rest.value;
      assert items[1..] == rest.value;
    }
  }

  predicate AllNothing(items: seq<Item>) {
    forall i | 0 <= i < |items| :: IsNothing(items[i])
  }

  predicate NoneEffective(rs: seq<Redirect>) {
    forall i | 0 <= i < |rs| :: !Effective(rs[i])
  }

  lemma NothingFirst(items: seq<Item>)
    requires items != []
    ensures AllNothing(items) <==> IsNothing(items[0]) && AllNothing(items[1..])
  {
    assert items == [items[0]] + items[1..];
  }

  lemma NoneFirst(r: Redirect, rest: seq<Redirect>)
    ensures NoneEffective([r] + rest) <==> !Effective(r) && NoneEffective(rest)
  {
    var all := [r] + rest;
    assert all[0] == r && forall i | 0 <= i < |rest| :: rest[i] == all[i + 1];
  }

  lemma {:induction false} NothingGathers(items: seq<Item>)
    ensures AllNothing(items) <==> ArgsOf(items) == [] && AssignsOf(items) == [] && NoneEffective(RedirectsOf(items))
  {
    if items != [] {
      NothingGathers(items[1..]);
      NothingFirst(items);
      hide AllNothing, NoneEffective;
      if items[0].Redirection? {
        NoneFirst(items[0].what, RedirectsOf(items[1..]));
      } else {
        assert RedirectsOf(items) == RedirectsOf(items[1..]);
      }
    }
  }

  lemma {:induction false} NoSlotsIff(rs: seq<Redirect>)
    ensures SlotsOf(rs) == [] <==> NoneEffective(rs)
  {
    if rs != [] {
      var k := |rs| - 1;
      NoSlotsIff(rs[..k]);
      assert forall i | 0 <= i < k :: rs[..k][i] == rs[i];
    }
  }

  // A line is called blank exactly if it can be read and nothing in it comes to
  // anything.  So the promise of the header, blank lines and comments, is met
  // exactly if such a line has no redirection and no word at all.
  lemma CalledEmpty(text: string, env: Env, fallback: bool)
    ensures var items := ItemsFrom(text, 0, false, env);
      var called := Parse(text, env, fallback) == Failed(Error(Empty, 0));
      && (called <==> items.Ok? && AllNothing(items.value))
      && (called ==> (BlankOrComment(text) <==> items.value == []))
    ensures BlankOrComment(text) ==> Parse(text, env, fallback) == Failed(Error(Empty, 0))
  {
    hide Word, Fields, RedirectAt, AssignmentAt, AssignmentLength, SkipBlanks, LineFrom;
    var items, line := ItemsFrom(text, 0, false, env), LineFrom(text, 0, NOTHING, env);
    LineGathers(text, 0, NOTHING, env);
    ParseIsEmpty(text, env, fallback);
    if line.Ok? {
      var all := line.value.what;
      assert all == Parsed(ArgsOf(items.value), AssignsOf(items.value), RedirectsOf(items.value));
      NothingGathers(items.value);
    }
  }

  lemma ParseIsEmpty(text: string, env: Env, fallback: bool)
    ensures var line := LineFrom(text, 0, NOTHING, env);
      Parse(text, env, fallback) == Failed(Error(Empty, 0))
      <==> line.Ok? && line.value.what.args == [] && line.value.what.assigns == []
           && NoneEffective(line.value.what.redirects)
  {
    hide LineFrom;
    var line := LineFrom(text, 0, NOTHING, env);
    if line.Ok? {
      NoSlotsIff(line.value.what.redirects);
    }
  }

  // Nothing but a redirection that asks for nothing.
  lemma ANoOpIsCalledEmpty(env: Env, fallback: bool)
    ensures Parse("1>&1", env, fallback) == Failed(Error(Empty, 0)) && !BlankOrComment("1>&1")
  {
    var text := "1>&1";
    assert At(text, 0) == '1' && At(text, 1) == '>' && At(text, 2) == '&' && At(text, 3) == '1' && At(text, 4) == NUL;
    assert SkipBlanks(text, 0) == 0 && DigitsEnd(text, 0) == 1 && DigitsEnd(text, 1) == 1;
    assert NumberFrom(text, 1, 1) == Some(1) && NumberFrom(text, 0, 0) == Some(1);
    assert NumberFrom(text, 4, 1) == Some(1) && NumberFrom(text, 3, 0) == Some(1);
    assert DigitsEnd(text, 4) == 4 && DigitsEnd(text, 3) == 4;
    var r := Dup(1, false, 1);
    assert RedirectAt(text, 0, env) == Ok(Found(r, 4));
    assert SkipBlanks(text, 4) == 4 && ItemsFrom(text, 4, false, env) == Ok([]);
    assert IsRedirectStart(text, 0);
    assert ItemsFrom(text, 0, false, env) == Before(Redirection(r), ItemsFrom(text, 4, false, env));
    CalledEmpty(text, env, fallback);
  }
}
