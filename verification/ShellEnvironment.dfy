// The environment of a child: build_env of src/yc-shell.c.
module ShellEnvironment {
  import opened Basics
  import opened ShellSyntax
  import opened ShellLine

  // The position of the first '=', or the length (strcspn).
  function NameLength(entry: string): (n: nat)
    ensures n <= |entry| && (n < |entry| ==> entry[n] == '=') && forall i | 0 <= i < n :: entry[i] != '='
  {
    if entry == "" || entry[0] == '=' then 0 else NameLength(entry[1..]) + 1
  }

  predicate IsAssignment(entry: string) {
    '=' in entry
  }

  function NameOf(entry: string): string {
    entry[..NameLength(entry)]
  }

  // What getenv finds: the rest of the first entry that begins with 'name='.
  ghost function Getenv(env: seq<string>, name: string): Option<string> {
    if env == [] then None
    else if name + "=" <= env[0] then Some(env[0][|name| + 1..])
    else Getenv(env[1..], name)
  }

  // The last assignment to a name, if there is one.
  ghost function LastAssigned(assigns: seq<string>, name: string): Option<string>
    requires forall i | 0 <= i < |assigns| :: IsAssignment(assigns[i])
  {
    if assigns == [] then None
    else
      var k := |assigns| - 1;
      assert IsAssignment(assigns[k]);
      NameEnds(assigns[k], NameLength(assigns[k]));
      if NameOf(assigns[k]) == name then Some(assigns[k][|name| + 1..]) else LastAssigned(assigns[..k], name)
  }

  // One assignment: the first entry of that name is replaced, or one is added.
  ghost function Assigned(env: seq<string>, assign: string): seq<string> {
    if env == [] then [assign]
    else if NameOf(assign) + "=" <= env[0] then [assign] + env[1..]
    else [env[0]] + Assigned(env[1..], assign)
  }

  lemma BeginsWith(entry: string, name: string, n: nat)
    requires n < |entry| && entry[..n] == name && entry[n] == '='
    ensures |name + "="| == n + 1 && name + "=" <= entry && entry[..n + 1] == name + "="
  {
    var head := entry[..n + 1];
    assert head == entry[..n] + [entry[n]];
  }

  lemma SplitAssignment(assign: string)
    requires IsAssignment(assign)
    ensures var n := NameLength(assign);
      n < |assign| && assign[..n + 1] == NameOf(assign) + "=" && NameOf(assign) + "=" <= assign && '=' !in NameOf(assign)
  {
    hide NameLength;
    var n := NameLength(assign);
    NameEnds(assign, n);
    BeginsWith(assign, assign[..n], n);
  }

  lemma NameEnds(entry: string, n: nat)
    requires IsAssignment(entry) && n <= |entry| && forall i | 0 <= i < n :: entry[i] != '='
    ensures n < |entry| && '=' !in entry[..n]
  {
    var head := entry[..n];
    assert forall i | 0 <= i < |head| :: head[i] == entry[i];
    assert n == |entry| ==> head == entry;
  }

  // An entry cannot begin with two names.
  lemma OneName(entry: string, a: string, b: string)
    requires a + "=" <= entry && b + "=" <= entry && '=' !in a && '=' !in b
    ensures a == b
  {
    assert entry[|a|] == (a + "=")[|a|] && entry[|b|] == (b + "=")[|b|];
    assert forall i | 0 <= i < |a| :: entry[i] == (a + "=")[i] == a[i];
    assert forall i | 0 <= i < |b| :: entry[i] == (b + "=")[i] == b[i];
    assert |a| >= |b|;
    assert |b| >= |a|;
  }

  lemma {:induction false} GetAfterAssign(env: seq<string>, assign: string, name: string)
    requires IsAssignment(assign) && '=' !in name
    ensures Getenv(Assigned(env, assign), name)
         == if NameOf(assign) == name then Some(assign[|name| + 1..]) else Getenv(env, name)
  {
    SplitAssignment(assign);
    var a := NameOf(assign);
    if name + "=" <= assign {
      OneName(assign, a, name);
    }
    if env == [] {
      assert [assign][1..] == [];
    } else if a + "=" <= env[0] {
      if name + "=" <= env[0] {
        OneName(env[0], a, name);
      }
      assert ([assign] + env[1..])[1..] == env[1..];
    } else {
      GetAfterAssign(env[1..], assign, name);
      assert ([env[0]] + Assigned(env[1..], assign))[1..] == Assigned(env[1..], assign);
    }
  }

  ghost function AllAssigned(env: seq<string>, assigns: seq<string>): seq<string> {
    if assigns == [] then env
    else
      var k := |assigns| - 1;
      Assigned(AllAssigned(env, assigns[..k]), assigns[k])
  }

  // The last assignment of a name wins; names that are not assigned keep
  // what they had.
  lemma {:induction false} LastAssignmentWins(env: seq<string>, assigns: seq<string>, name: string)
    requires '=' !in name && forall i | 0 <= i < |assigns| :: IsAssignment(assigns[i])
    ensures Getenv(AllAssigned(env, assigns), name)
         == if LastAssigned(assigns, name).Some? then LastAssigned(assigns, name) else Getenv(env, name)
  {
    if assigns != [] {
      var k := |assigns| - 1;
      LastAssignmentWins(env, assigns[..k], name);
      GetAfterAssign(AllAssigned(env, assigns[..k]), assigns[k], name);
    }
  }

  // The inner loop of build_env.
  method Assign(env: seq<string>, assign: string) returns (after: seq<string>)
    requires IsAssignment(assign)
    ensures after == Assigned(env, assign)
  {
    SplitAssignment(assign);
    hide NameLength;
    var n := NameLength(assign) + 1;
    for j := 0 to |env|
      invariant Assigned(env, assign) == env[..j] + Assigned(env[j..], assign)
    {
      AssignAt(env, j, assign);
      if n <= |env[j]| && env[j][..n] == assign[..n] {
        return env[j := assign];
      }
    }
    assert env[..|env|] == env && env[|env|..] == [];
    after := env + [assign];
  }

  lemma AssignAt(env: seq<string>, j: nat, assign: string)
    requires j < |env| && Assigned(env, assign) == env[..j] + Assigned(env[j..], assign)
    ensures if NameOf(assign) + "=" <= env[j] then Assigned(env, assign) == env[j := assign]
            else Assigned(env, assign) == env[..j + 1] + Assigned(env[j + 1..], assign)
  {
    AssignedFirst(env[j..], assign);
    hide NameOf, Assigned;
    TailFrom(env, j);
    if NameOf(assign) + "=" <= env[j] {
      Spliced(env, j, assign);
    } else {
      Shifted(env, j, Assigned(env[j + 1..], assign));
    }
  }

  lemma TailFrom(env: seq<string>, j: nat)
    requires j < |env|
    ensures env[j..] != [] && env[j..][0] == env[j] && env[j..][1..] == env[j + 1..]
  {
  }

  lemma Spliced(env: seq<string>, j: nat, x: string)
    requires j < |env|
    ensures env[j := x] == env[..j] + ([x] + env[j + 1..])
  {
  }

  lemma Shifted(env: seq<string>, j: nat, more: seq<string>)
    requires j < |env|
    ensures env[..j + 1] + more == env[..j] + ([env[j]] + more)
  {
    assert env[..j + 1] == env[..j] + [env[j]];
  }

  lemma AssignedFirst(env: seq<string>, assign: string)
    requires env != []
    ensures Assigned(env, assign)
         == if NameOf(assign) + "=" <= env[0] then [assign] + env[1..] else [env[0]] + Assigned(env[1..], assign)
  {
  }


  // build_env: nothing when the line assigns nothing; then the child inherits.
  method BuildEnv(environ: seq<string>, assigns: seq<string>) returns (env: Option<seq<string>>)
    requires forall i | 0 <= i < |assigns| :: IsAssignment(assigns[i])
    ensures env == if assigns == [] then None else Some(AllAssigned(environ, assigns))
  {
    if |assigns| == 0 {
      return None;
    }
    var vars := environ;
    for i := 0 to |assigns|
      invariant vars == AllAssigned(environ, assigns[..i])
    {
      assert assigns[..i + 1][..i] == assigns[..i];
      vars := Assign(vars, assigns[i]);
    }
    assert assigns[..|assigns|] == assigns;
    env := Some(vars);
  }

  lemma OneAssigns(text: string, p: nat, env: Env)
    requires p <= |text| && AssignmentLength(text, p) > 0
    ensures var r := AssignmentAt(text, p, env); r.Ok? ==> IsAssignment(r.value.what)
  {
    hide Word, Fields;
    var n := AssignmentLength(text, p);
    var name := text[p..p + n];
    assert name[n - 1] == text[p + n - 1];
    var r := AssignmentAt(text, p, env);
    if r.Ok? {
      assert r.value.what[n - 1] == name[n - 1];
    }
  }

  predicate AllAssignments(assigns: seq<string>) {
    forall i | 0 <= i < |assigns| :: IsAssignment(assigns[i])
  }

  lemma OneMore(assigns: seq<string>, assign: string)
    requires AllAssignments(assigns) && IsAssignment(assign)
    ensures AllAssignments(assigns + [assign])
  {
  }

  // What a line assigns has the form that build_env relies on.
  lemma {:induction false} LineAssigns(text: string, p: nat, so: Parsed, env: Env)
    requires p <= |text| && AllAssignments(so.assigns)
    ensures var r := LineFrom(text, p, so, env); r.Ok? ==> AllAssignments(r.value.what.assigns)
    decreases |text| - p
  {
    hide RedirectAt, Word, Fields, AssignmentAt, AssignmentLength, IsRedirectStart, SkipBlanks, AllAssignments, IsAssignment;
    var b := SkipBlanks(text, p);
    if At(text, b) == NUL || At(text, b) == '#' {
    } else if IsRedirectStart(text, b) {
      var r := RedirectAt(text, b, env);
      if r.Ok? {
        var more := so.(redirects := so.redirects + [r.value.what]);
        LineAssigns(text, r.value.next, more, env);
        assert LineFrom(text, p, so, env) == LineFrom(text, r.value.next, more, env);
      }
    } else if so.args == [] && AssignmentLength(text, b) > 0 {
      var r := AssignmentAt(text, b, env);
      if r.Ok? {
        var more := so.(assigns := so.assigns + [r.value.what]);
        OneAssigns(text, b, env);
        OneMore(so.assigns, r.value.what);
        LineAssigns(text, r.value.next, more, env);
        assert LineFrom(text, p, so, env) == LineFrom(text, r.value.next, more, env);
      }
    } else {
      var r := Word(text, b, [], true, env);
      WordBegins(text, b);
      if r.Ok? {
        var more := so.(args := so.args + Fields(r.value.what));
        LineAssigns(text, r.value.next, more, env);
        assert LineFrom(text, p, so, env) == LineFrom(text, r.value.next, more, env);
      }
    }
  }
}
