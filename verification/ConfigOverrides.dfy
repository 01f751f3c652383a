// Environment overrides: which configuration path a variable addresses, and why the order in which
// the environment is enumerated does not matter when the paths are independent.
module ConfigOverrides {
  import opened Collections
  import opened ConfigTree

  const PREFIX := "HOPWATCH_"

  // From a variable's name to a path.

  function Lower(c: char): char {
    if 'A' <= c <= 'Z' then (c as int + 32) as char else c
  }

  /** Capitals become small letters; every other character stays. */
  lemma LowerIs(c: char)
    ensures forall i | 0 <= i < 26 ::
      "ABCDEFGHIJKLMNOPQRSTUVWXYZ"[i] == c ==> Lower(c) == "abcdefghijklmnopqrstuvwxyz"[i]
    ensures c < 'A' || 'Z' < c ==> Lower(c) == c
  {
  }

  function LowerAll(s: string): (r: string)
    ensures |r| == |s| && forall i | 0 <= i < |s| :: r[i] == Lower(s[i])
  {
    seq(|s|, i requires 0 <= i < |s| => Lower(s[i]))
  }

  function Split(s: string): (r: seq<string>)
    ensures r != []
  {
    if s == "" then [""]
    else if s[0] == '_' then [""] + Split(s[1..])
    else [[s[0]] + Split(s[1..])[0]] + Split(s[1..])[1..]
  }

  function Join(segments: seq<string>): string
    requires segments != []
  {
    if |segments| == 1 then segments[0] else segments[0] + "_" + Join(segments[1..])
  }

  predicate IsOverride(key: string) {
    PREFIX <= key && key != "HOPWATCH_CONFIG" && key != "HOPWATCH_GIT_COMMIT"
  }

  /** Every variable with the prefix is an override but the two that mean something else. */
  lemma OverrideIff(key: string)
    ensures IsOverride("HOPWATCH_" + key) <==> key != "CONFIG" && key != "GIT_COMMIT"
    ensures IsOverride(key) ==> "HOPWATCH_" <= key
  {
    assert ("HOPWATCH_" + key)[9..] == key;
    assert "HOPWATCH_CONFIG"[9..] == "CONFIG" && "HOPWATCH_GIT_COMMIT"[9..] == "GIT_COMMIT";
    assert "HOPWATCH_CONFIG" == "HOPWATCH_" + "CONFIG" && "HOPWATCH_GIT_COMMIT" == "HOPWATCH_" + "GIT_COMMIT";
  }

  function Segments(key: string): (p: Path)
    requires PREFIX <= key
    ensures p != []
  {
    Split(LowerAll(key[|PREFIX|..]))
  }

  /** A key a variable name can spell: lower case and without the separator. */
  predicate Spellable(segment: string) {
    LowerAll(segment) == segment && '_' !in segment
  }

  lemma {:induction false} SplitIsSpellable(s: string)
    requires LowerAll(s) == s
    ensures forall k | 0 <= k < |Split(s)| :: Spellable(Split(s)[k])
  {
    if s != "" {
      var rest := s[1..];
      assert LowerAll(rest) == rest by {
        assert forall i | 0 <= i < |rest| :: LowerAll(rest)[i] == Lower(s[i + 1]) == LowerAll(s)[i + 1];
      }
      SplitIsSpellable(rest);
      if s[0] != '_' {
        var first := [s[0]] + Split(rest)[0];
        assert Spellable(Split(rest)[0]);
        assert Lower(s[0]) == s[0] by { assert LowerAll(s)[0] == s[0]; }
        assert LowerAll(first) == first;
        assert Split(s) == [first] + Split(rest)[1..];
      }
    }
  }

  lemma {:induction false} SplitSegment(segment: string, rest: string)
    requires '_' !in segment
    ensures Split(segment) == [segment] && Split(segment + "_" + rest) == [segment] + Split(rest)
  {
    if segment == "" {
      assert segment + "_" + rest == "_" + rest;
    } else {
      var tail := segment[1..];
      assert segment == [segment[0]] + tail;
      assert segment[0] in segment;
      assert forall c | c in tail :: c in segment;
      SplitSegment(tail, rest);
      assert (segment + "_" + rest)[1..] == tail + "_" + rest;
    }
  }

  lemma {:induction false} SplitUndoesJoin(p: Path)
    requires p != [] && forall k | 0 <= k < |p| :: Spellable(p[k])
    ensures Split(Join(p)) == p && LowerAll(Join(p)) == Join(p)
  {
    assert Spellable(p[0]);
    if |p| == 1 {
      SplitSegment(p[0], "");
    } else {
      SplitUndoesJoin(p[1..]);
      SplitSegment(p[0], Join(p[1..]));
      LowerAppend(p[0] + "_", Join(p[1..]));
      LowerAppend(p[0], "_");
      assert LowerAll("_") == "_";
    }
  }

  lemma LowerAppend(a: string, b: string)
    ensures LowerAll(a + b) == LowerAll(a) + LowerAll(b)
  {
  }

  lemma NotExcluded(name: string)
    requires LowerAll(name) == name
    ensures PREFIX + name != "HOPWATCH_CONFIG" && PREFIX + name != "HOPWATCH_GIT_COMMIT"
  {
    assert name != "" ==> (PREFIX + name)[|PREFIX|] == name[0] == LowerAll(name)[0];
  }

  /** A configuration path can be overridden exactly when no key on it needs an underscore or a capital. */
  lemma Addressable(p: Path)
    requires p != []
    ensures (exists key | IsOverride(key) :: Segments(key) == p) <==> forall k | 0 <= k < |p| :: Spellable(p[k])
  {
    if key :| IsOverride(key) && Segments(key) == p {
      var s := LowerAll(key[|PREFIX|..]);
      assert LowerAll(s) == s;
      SplitIsSpellable(s);
    }
    if forall k | 0 <= k < |p| :: Spellable(p[k]) {
      SplitUndoesJoin(p);
      var key := PREFIX + Join(p);
      assert key[|PREFIX|..] == Join(p);
      NotExcluded(Join(p));
      assert IsOverride(key) && Segments(key) == p;
    }
  }

  // Applying the environment.

  /** How a variable's text becomes a value, and a value an array length: JavaScript's conversions. */
  datatype Conversions = Conversions(coerce: string -> Tree, toLength: Tree -> Option<nat>)

  function ApplyOne(t: Option<Tree>, env: map<string, string>, key: string, c: Conversions): Option<Tree>
    requires key in env
  {
    if IsOverride(key) then Then(t, Segments(key), c.coerce(env[key]), c.toLength) else t
  }

  /** The tree after the variables of `order`, one after the other; None is a thrown error. */
  function ApplyAll(base: Tree, env: map<string, string>, order: seq<string>, c: Conversions): Option<Tree>
    requires forall k | k in order :: k in env
  {
    if order == [] then Some(base)
    else ApplyOne(ApplyAll(base, env, order[..|order| - 1], c), env, order[|order| - 1], c)
  }

  /** Variables listed once each. */
  predicate Listing(order: seq<string>, keys: set<string>) {
    && (forall i, j | 0 <= i < j < |order| :: order[i] != order[j])
    && (forall k | k in order :: k in keys)
  }

  /** Every environment can be enumerated. */
  lemma {:induction false} HasListing(keys: set<string>) returns (order: seq<string>)
    ensures Listing(order, keys) && forall k | k in keys :: k in order
    decreases keys
  {
    order := [];
    if keys != {} {
      var k := HasElement(keys);
      var rest := HasListing(keys - {k});
      order := rest + [k];
    }
  }

  predicate IndependentKeys(keys: set<string>) {
    forall k, l | k in keys && l in keys && k != l && IsOverride(k) && IsOverride(l) ::
      Independent(Segments(k), Segments(l))
  }

  lemma OnesCommute(t: Option<Tree>, env: map<string, string>, k: string, l: string, c: Conversions)
    requires k in env && l in env && k != l && IndependentKeys(env.Keys)
    ensures ApplyOne(ApplyOne(t, env, k, c), env, l, c) == ApplyOne(ApplyOne(t, env, l, c), env, k, c)
  {
    hide SetDeep, Independent, Segments;
    if t.Some? && IsOverride(k) && IsOverride(l) {
      SetsCommute(t.value, Segments(k), Segments(l), c.coerce(env[k]), c.coerce(env[l]), c.toLength);
    }
  }

  function Without(order: seq<string>, i: nat): seq<string>
    requires i < |order|
  {
    order[..i] + order[i + 1..]
  }

  lemma ApplySnoc(base: Tree, env: map<string, string>, order: seq<string>, k: string, c: Conversions)
    requires k in env && forall x | x in order :: x in env
    ensures ApplyAll(base, env, order + [k], c) == ApplyOne(ApplyAll(base, env, order, c), env, k, c)
  {
    assert (order + [k])[..|order|] == order;
  }

  /** A variable can be moved to the end of the enumeration. */
  lemma {:induction false} MoveToEnd(base: Tree, env: map<string, string>, order: seq<string>, i: nat, c: Conversions)
    requires i < |order| && Listing(order, env.Keys) && IndependentKeys(env.Keys)
    ensures Listing(Without(order, i), env.Keys)
    ensures ApplyAll(base, env, order, c) == ApplyOne(ApplyAll(base, env, Without(order, i), c), env, order[i], c)
    decreases |order|
  {
    hide ApplyOne, ApplyAll, IndependentKeys;
    var last, rest := order[|order| - 1], order[..|order| - 1];
    assert order == rest + [last];
    ApplySnoc(base, env, rest, last, c);
    if i == |order| - 1 {
      assert Without(order, i) == rest;
    } else {
      MoveToEnd(base, env, rest, i, c);
      assert Without(order, i) == Without(rest, i) + [last];
      ApplySnoc(base, env, Without(rest, i), last, c);
      OnesCommute(ApplyAll(base, env, Without(rest, i), c), env, order[i], last, c);
    }
  }

  /** Two enumerations of the same variables build the same tree, or both fail. */
  lemma {:induction false} OrderIsIrrelevant(base: Tree, env: map<string, string>, a: seq<string>, b: seq<string>,
                                             c: Conversions)
    requires Listing(a, env.Keys) && Listing(b, env.Keys) && (forall k :: k in a <==> k in b)
    requires IndependentKeys(env.Keys)
    ensures ApplyAll(base, env, a, c) == ApplyAll(base, env, b, c)
  {
    hide ApplyOne, IndependentKeys;
    if a == [] {
      FirstIsIn(b);
    } else {
      var last, rest := a[|a| - 1], a[..|a| - 1];
      assert a == rest + [last];
      assert last in b;
      var i :| 0 <= i < |b| && b[i] == last;
      MoveToEnd(base, env, b, i, c);
      SameRest(rest, last, b, i);
      OrderIsIrrelevant(base, env, rest, Without(b, i), c);
    }
  }

  lemma SameRest(rest: seq<string>, last: string, b: seq<string>, i: nat)
    requires i < |b| && b[i] == last && last !in rest
    requires forall j, k | 0 <= j < k < |b| :: b[j] != b[k]
    requires forall k :: k in rest + [last] <==> k in b
    ensures forall k :: k in rest <==> k in Without(b, i)
  {
    forall k
      ensures k in rest <==> k in Without(b, i)
    {
      assert k in rest + [last] <==> k in rest || k == last;
      assert b == b[..i] + [b[i]] + b[i + 1..];
    }
  }

  // What each path reads afterwards.

  /** A path that no override touches keeps its base value. */
  lemma {:induction false} UntouchedPathKeeps(base: Tree, env: map<string, string>, order: seq<string>, c: Conversions,
                                              r: Path)
    requires r != [] && Listing(order, env.Keys) && ApplyAll(base, env, order, c).Some?
    requires forall k | k in order && IsOverride(k) :: Independent(Segments(k), r)
    ensures Get(ApplyAll(base, env, order, c).value, r) == Get(base, r)
  {
    hide Independent, SetDeep, Get, Segments;
    if order != [] {
      var last, rest := order[|order| - 1], order[..|order| - 1];
      assert order == rest + [last];
      UntouchedPathKeeps(base, env, rest, c, r);
      if IsOverride(last) {
        FrameOfSet(ApplyAll(base, env, rest, c).value, Segments(last), r, c.coerce(env[last]), c.toLength);
      }
    }
  }

  /** What an override's own path reads: its coerced value, or, for an array's length, the number it became. */
  predicate ReadsAs(t: Tree, path: Path, v: Tree, toLength: Tree -> Option<nat>)
    requires path != []
  {
    if IsArrayLength(t, path) then
      ToLength(v, toLength).Some? && Get(t, path) == Some(Leaf(Num(ToLength(v, toLength).value as real)))
    else Get(t, path) == Some(v)
  }

  /** Every override reads back, wherever in the enumeration it came. */
  lemma OverridesReadBack(base: Tree, env: map<string, string>, order: seq<string>, c: Conversions, i: nat)
    requires i < |order| && Listing(order, env.Keys) && IndependentKeys(env.Keys)
    requires ApplyAll(base, env, order, c).Some? && IsOverride(order[i])
    ensures ReadsAs(ApplyAll(base, env, order, c).value, Segments(order[i]), c.coerce(env[order[i]]), c.toLength)
  {
    hide SetDeep, Get, Segments, ToLength, SetsLength, Independent, IsArrayLength;
    var k := order[i];
    MoveToEnd(base, env, order, i, c);
    var before := ApplyAll(base, env, Without(order, i), c).value;
    ReadBack(before, Segments(k), c.coerce(env[k]), c.toLength);
    LengthShowsAfterwards(before, Segments(k), c.coerce(env[k]), c.toLength);
  }
}
