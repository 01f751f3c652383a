// `${NAME}` placeholders inside configuration strings: which texts they replace, in one pass, and
// that the shape of the tree is untouched.
module Placeholders {
  import opened Collections
  import opened ConfigTree

  predicate IsNameChar(c: char) { 'A' <= c <= 'Z' || '0' <= c <= '9' || c == '_' }

  predicate IsName(s: string) { s != "" && forall i | 0 <= i < |s| :: IsNameChar(s[i]) }

  /** How many characters at the front can belong to a name. */
  function NameRun(s: string): (n: nat)
    ensures n <= |s| && (forall i | 0 <= i < n :: IsNameChar(s[i])) && (n < |s| ==> !IsNameChar(s[n]))
  {
    if s != "" && IsNameChar(s[0]) then 1 + NameRun(s[1..]) else 0
  }

  /** The length of the placeholder at the front of the text, 0 if there is none. */
  function MatchLength(s: string): (m: nat)
    ensures m <= |s| && m != 1 && m != 2
    ensures m > 0 <==> exists name {:trigger Braced(name)} | IsName(name) :: Braced(name) <= s
  {
    var n := if "${" <= s then NameRun(s[2..]) else 0;
    MatchIsPlaceholder(s, n);
    if n > 0 && n + 2 < |s| && s[n + 2] == '}' then n + 3 else 0
  }

  function Braced(name: string): string { "${" + name + "}" }

  lemma MatchIsPlaceholder(s: string, n: nat)
    requires n == if "${" <= s then NameRun(s[2..]) else 0
    ensures (n > 0 && n + 2 < |s| && s[n + 2] == '}') <==>
      exists name {:trigger Braced(name)} | IsName(name) :: Braced(name) <= s
  {
    if n > 0 && n + 2 < |s| && s[n + 2] == '}' {
      assert IsName(s[2..][..n]) && Braced(s[2..][..n]) == s[..n + 3];
    }
    if name :| IsName(name) && Braced(name) <= s {
      RunOfName(s, name);
    }
  }

  lemma RunOfName(s: string, name: string)
    requires IsName(name) && Braced(name) <= s
    ensures "${" <= s && NameRun(s[2..]) == |name| && |name| + 2 < |s| && s[|name| + 2] == '}' &&
      s[2..][..|name|] == name
  {
    var b := Braced(name);
    assert b[|name| + 2] == '}' && b[0] == '$' && b[1] == '{';
    assert s[..|b|] == b;
    assert forall i | 0 <= i < |name| :: s[2..][i] == b[i + 2] == name[i];
    assert s[2..][|name|] == s[|name| + 2] == '}';
  }

  function ValueOf(env: map<string, string>, name: string): string {
    if name in env then env[name] else ""
  }

  /** Left to right, each placeholder replaced once, its value not looked at again. */
  function Resolve(s: string, env: map<string, string>): string {
    var m := MatchLength(s);
    if s == "" then ""
    else if m > 0 then ValueOf(env, s[2..m - 1]) + Resolve(s[m..], env)
    else [s[0]] + Resolve(s[1..], env)
  }

  /** A variable that is set gives its value, one that is not gives nothing, wherever the placeholder stands. */
  lemma PlaceholderGivesValue(name: string, rest: string, env: map<string, string>)
    requires name != ""
    requires forall i | 0 <= i < |name| :: 'A' <= name[i] <= 'Z' || '0' <= name[i] <= '9' || name[i] == '_'
    ensures Resolve("${" + name + "}" + rest, env) == (if name in env then env[name] else "") + Resolve(rest, env)
  {
    var s := "${" + name + "}" + rest;
    assert IsName(name) && Braced(name) <= s;
    RunOfName(s, name);
    assert s[2..MatchLength(s) - 1] == name && s[MatchLength(s)..] == rest;
  }

  // A text as the parts its author wrote.

  datatype Part = Text(text: string) | Var(name: string)

  function Written(p: Part): string {
    match p case Text(t) => t case Var(name) => Braced(name)
  }

  function WriteAll(parts: seq<Part>): string {
    if parts == [] then "" else Written(parts[0]) + WriteAll(parts[1..])
  }

  function Fill(parts: seq<Part>, env: map<string, string>): string {
    if parts == [] then ""
    else (match parts[0] case Text(t) => t case Var(name) => ValueOf(env, name)) + Fill(parts[1..], env)
  }

  /** No placeholder starts anywhere in the text. */
  predicate IsPlain(t: string) {
    forall i {:trigger t[i..]} | 0 <= i < |t| :: MatchLength(t[i..]) == 0
  }

  /** Texts are plain and maximal, names are names. */
  predicate IsTemplate(parts: seq<Part>) {
    parts == [] ||
    (&& IsTemplate(parts[1..])
     && match parts[0]
        case Var(name) => IsName(name)
        case Text(t) => t != "" && IsPlain(t) && (|parts| > 1 ==> parts[1].Var?))
  }

  /** What follows a plain text cannot complete a placeholder that begins in it. */
  lemma NoStraddling(t: string, rest: string)
    requires t != "" && (rest == "" || rest[0] == '$')
    ensures MatchLength(t + rest) == MatchLength(t)
  {
    if name :| IsName(name) && Braced(name) <= t + rest {
      NameStaysInside(t, rest, name);
    }
    if name :| IsName(name) && Braced(name) <= t {
      assert t <= t + rest;
      assert Braced(name) <= t + rest;
      RunOfName(t, name);
      RunOfName(t + rest, name);
    }
  }

  lemma NameStaysInside(t: string, rest: string, name: string)
    requires t != "" && (rest == "" || rest[0] == '$') && IsName(name) && Braced(name) <= t + rest
    ensures Braced(name) <= t
  {
    var b := Braced(name);
    assert forall i | 0 < i < |b| :: b[i] != '$';
    assert forall i | 0 <= i < |b| :: b[i] == (t + rest)[i];
    assert |t| < |t + rest| ==> (t + rest)[|t|] == '$';
    assert |b| <= |t|;
    assert t[..|b|] == (t + rest)[..|b|];
  }

  lemma TailIsPlain(t: string)
    requires IsPlain(t) && t != ""
    ensures IsPlain(t[1..])
  {
    hide MatchLength;
    assert forall i | 0 <= i < |t[1..]| :: t[1..][i..] == t[i + 1..];
  }

  lemma ResolveCharacter(s: string, env: map<string, string>)
    requires s != "" && MatchLength(s) == 0
    ensures Resolve(s, env) == [s[0]] + Resolve(s[1..], env)
  {
  }

  lemma {:induction false} PlainPassesThrough(t: string, rest: string, env: map<string, string>)
    requires IsPlain(t) && (rest == "" || rest[0] == '$')
    ensures Resolve(t + rest, env) == t + Resolve(rest, env)
  {
    hide MatchLength, Braced, IsName, Resolve;
    if t == "" {
      assert t + rest == rest;
    } else {
      assert t[0..] == t;
      NoStraddling(t, rest);
      assert (t + rest)[1..] == t[1..] + rest;
      ResolveCharacter(t + rest, env);
      TailIsPlain(t);
      PlainPassesThrough(t[1..], rest, env);
    }
  }

  lemma {:induction false} VarIsReplaced(name: string, rest: string, env: map<string, string>)
    requires IsName(name)
    ensures Resolve(Braced(name) + rest, env) == ValueOf(env, name) + Resolve(rest, env)
  {
    var s := Braced(name) + rest;
    RunOfName(s, name);
    assert s[2..|name| + 2] == name;
    assert s[|name| + 3..] == rest;
  }

  /** Resolving what a template writes fills the template: values are never scanned again. */
  lemma {:induction false} ResolveFillsTemplate(parts: seq<Part>, env: map<string, string>)
    requires IsTemplate(parts)
    ensures Resolve(WriteAll(parts), env) == Fill(parts, env)
    ensures parts != [] && parts[0].Var? ==> WriteAll(parts) != "" && WriteAll(parts)[0] == '$'
  {
    if parts != [] {
      ResolveFillsTemplate(parts[1..], env);
      match parts[0]
      case Text(t) => PlainPassesThrough(t, WriteAll(parts[1..]), env);
      case Var(name) => VarIsReplaced(name, WriteAll(parts[1..]), env);
    }
  }

  /** The template a text is. */
  function Parse(s: string): seq<Part> {
    var m := MatchLength(s);
    if s == "" then []
    else if m > 0 then [Var(s[2..m - 1])] + Parse(s[m..])
    else
      var rest := Parse(s[1..]);
      if rest != [] && rest[0].Text? then [Text([s[0]] + rest[0].text)] + rest[1..] else [Text([s[0]])] + rest
  }

  lemma {:induction false} PlaceholderFirst(s: string)
    requires MatchLength(s) > 0
    requires var rest := Parse(s[MatchLength(s)..]); IsTemplate(rest) && WriteAll(rest) == s[MatchLength(s)..]
    ensures IsTemplate(Parse(s)) && WriteAll(Parse(s)) == s
  {
    hide MatchLength, Braced, IsName;
    var m := MatchLength(s);
    MatchIsBraced(s);
    var parts := [Var(s[2..m - 1])] + Parse(s[m..]);
    assert parts[1..] == Parse(s[m..]);
    assert Parse(s) == parts;
  }

  lemma MatchIsBraced(s: string)
    requires MatchLength(s) > 0
    ensures IsName(s[2..MatchLength(s) - 1]) && s == Braced(s[2..MatchLength(s) - 1]) + s[MatchLength(s)..]
  {
    var name :| IsName(name) && Braced(name) <= s;
    RunOfName(s, name);
    assert s[2..MatchLength(s) - 1] == name;
  }

  lemma ParseOfNothing()
    ensures Parse("") == [] && IsTemplate([]) && WriteAll([]) == ""
  {
  }

  /** Every text is written by one template, so the law above covers every text. */
  lemma {:induction false} ParseWritesBack(s: string)
    ensures IsTemplate(Parse(s)) && WriteAll(Parse(s)) == s
  {
    hide MatchLength, Braced, IsName, IsTemplate, WriteAll;
    ParseOfNothing();
    var m := MatchLength(s);
    if s == "" {
    } else if m > 0 {
      ParseWritesBack(s[m..]);
      PlaceholderFirst(s);
    } else {
      ParseWritesBack(s[1..]);
      PrependKeepsTemplate(s, Parse(s[1..]));
    }
  }

  lemma PrependKeepsTemplate(s: string, rest: seq<Part>)
    requires s != "" && MatchLength(s) == 0 && IsTemplate(rest) && WriteAll(rest) == s[1..]
    ensures
      var parts :=
        if rest != [] && rest[0].Text? then [Text([s[0]] + rest[0].text)] + rest[1..] else [Text([s[0]])] + rest;
      IsTemplate(parts) && WriteAll(parts) == s
  {
    hide MatchLength, Braced, IsName;
    var merged := rest != [] && rest[0].Text?;
    var tail := if merged then rest[0].text else "";
    var t := [s[0]] + tail;
    assert t <= s by { assert s == [s[0]] + s[1..]; }
    assert IsPlain(t) by {
      forall i | 0 <= i < |t|
        ensures MatchLength(t[i..]) == 0
      {
        if i == 0 { PrefixHasNoMatch(t, s); } else { assert t[i..] == tail[i - 1..]; }
      }
    }
    var parts := [Text(t)] + if merged then rest[1..] else rest;
    assert parts[1..] == if merged then rest[1..] else rest;
  }

  lemma PrefixHasNoMatch(t: string, s: string)
    requires t <= s && MatchLength(s) == 0
    ensures MatchLength(t[0..]) == 0
  {
    hide Braced;
    assert t[0..] == t;
    forall name | IsName(name)
      ensures Braced(name) <= t ==> Braced(name) <= s
    {
    }
  }

  // The whole tree.

  function ResolveScalar(v: Scalar, env: map<string, string>): Scalar {
    if v.Str? then Str(Resolve(v.s, env)) else v
  }

  function ResolveTree(t: Tree, env: map<string, string>): Tree {
    match t
    case Leaf(v) => Leaf(ResolveScalar(v, env))
    case Obj(fields) => Obj(map k | k in fields :: ResolveTree(fields[k], env))
    case Arr(length, items) => Arr(length, map k | k in items :: ResolveTree(items[k], env))
  }

  /** Looking up and resolving can be done in either order: keys, indices and lengths are left alone. */
  lemma {:induction false} GetResolved(t: Tree, p: Path, env: map<string, string>)
    ensures Get(ResolveTree(t, env), p) ==
            match Get(t, p) case None => None case Some(v) => Some(ResolveTree(v, env))
    decreases |p|
  {
    if p != [] && Own(t, p[0]).Some? { GetResolved(Own(t, p[0]).value, p[1..], env); }
  }
}
