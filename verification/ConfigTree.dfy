// Configuration trees and what one deep write does to them, JavaScript arrays and their `length`
// included.
module ConfigTree {
  import opened Collections

  datatype Scalar = Null | Bool(b: bool) | Num(n: real) | Str(s: string)

  /** `items` holds the own properties of an array apart from `length`. */
  datatype Tree =
    | Leaf(value: Scalar)
    | Obj(fields: map<string, Tree>)
    | Arr(length: nat, items: map<string, Tree>)

  type Path = seq<string>

  const LENGTH := "length"
  const MAX_INDEX := 0xFFFF_FFFE

  // Array indices are canonical decimal numerals below 2^32 - 1.

  predicate IsDigits(s: string) {
    s != "" && forall i | 0 <= i < |s| :: '0' <= s[i] <= '9'
  }

  function Numeral(s: string): nat
    requires forall i | 0 <= i < |s| :: '0' <= s[i] <= '9'
  {
    if s == "" then 0 else 10 * Numeral(s[..|s| - 1]) + (s[|s| - 1] - '0') as nat
  }

  function IndexOf(key: string): (i: Option<nat>)
    ensures i.Some? ==> key != LENGTH
  {
    if IsDigits(key) && (key == "0" || key[0] != '0') && Numeral(key) <= MAX_INDEX then Some(Numeral(key)) else None
  }

  /**
   * The array length a value assigned to `length` stands for, if it is a valid one. `convert` is
   * JavaScript's conversion of the values that are neither numbers nor objects.
   */
  function ToLength(v: Tree, convert: Tree -> Option<nat>): Option<nat> {
    match v
    case Obj(_) => None
    case Leaf(Num(n)) => if n.Floor as real == n && 0 <= n.Floor <= MAX_INDEX + 1 then Some(n.Floor) else None
    case _ => convert(v)
  }

  /** Shrinking an array deletes the elements past its end. */
  function Truncated(items: map<string, Tree>, n: nat): map<string, Tree> {
    map k | k in items && (IndexOf(k) == None || IndexOf(k).value < n) :: items[k]
  }

  // One assignment `cursor[key] = v`; None is a thrown error.

  function Put(t: Tree, key: string, v: Tree, convert: Tree -> Option<nat>): Option<Tree> {
    match t
    case Leaf(_) => None
    case Obj(fields) => Some(Obj(fields[key := v]))
    case Arr(length, items) =>
      if key == LENGTH then
        match ToLength(v, convert)
        case None => None
        case Some(n) => Some(Arr(n, Truncated(items, n)))
      else
        var grown := match IndexOf(key) case Some(i) => (if i >= length then i + 1 else length) case None => length;
        Some(Arr(grown, items[key := v]))
  }

  function Own(t: Tree, key: string): Option<Tree> {
    match t
    case Leaf(_) => None
    case Obj(fields) => if key in fields then Some(fields[key]) else None
    case Arr(length, items) =>
      if key == LENGTH then Some(Leaf(Num(length as real)))
      else if key in items then Some(items[key]) else None
  }

  /** Where the cursor goes for `key`: an existing object or array, else a new empty object. */
  function Child(t: Tree, key: string): (c: Tree)
    ensures !c.Leaf?
  {
    match Own(t, key)
    case Some(c) => if c.Leaf? then Obj(map[]) else c
    case None => Obj(map[])
  }

  function SetDeep(t: Tree, path: Path, v: Tree, convert: Tree -> Option<nat>): (r: Option<Tree>)
    requires path != []
    ensures r.Some? ==> !t.Leaf? && !r.value.Leaf?
    decreases |path|
  {
    if |path| == 1 then Put(t, path[0], v, convert)
    else if t.Leaf? then None
    else
      match SetDeep(Child(t, path[0]), path[1..], v, convert)
      case None => None
      case Some(c) => Put(t, path[0], c, convert)
  }

  function Get(t: Tree, path: Path): Option<Tree>
    decreases |path|
  {
    if path == [] then Some(t)
    else match Own(t, path[0])
      case None => None
      case Some(c) => Get(c, path[1..])
  }

  // When two paths do not interfere.

  /** One path sets the length of an array of which the other addresses an element. */
  predicate LengthMeetsIndex(p: Path, q: Path)
    decreases |p|
  {
    p != [] && q != [] &&
    if p[0] == q[0] then LengthMeetsIndex(p[1..], q[1..])
    else p == [LENGTH] && IndexOf(q[0]).Some?
  }

  predicate Independent(p: Path, q: Path) {
    !(p <= q) && !(q <= p) && !LengthMeetsIndex(p, q) && !LengthMeetsIndex(q, p)
  }

  lemma PrefixTails(p: Path, q: Path)
    requires p != [] && q != [] && p[0] == q[0]
    ensures p <= q <==> p[1..] <= q[1..]
  {
    assert p == [p[0]] + p[1..] && q == [q[0]] + q[1..];
  }

  lemma IndependentTails(p: Path, q: Path)
    requires p != [] && q != [] && p[0] == q[0]
    ensures Independent(p, q) <==> Independent(p[1..], q[1..])
  {
    PrefixTails(p, q);
    PrefixTails(q, p);
  }

  // Writes commute.

  function Then(t: Option<Tree>, path: Path, v: Tree, convert: Tree -> Option<nat>): Option<Tree>
    requires path != []
  {
    match t
    case None => None
    case Some(x) => SetDeep(x, path, v, convert)
  }

  /** Writing one key leaves what the cursor finds under another, unless length and index meet. */
  lemma ChildStays(t: Tree, k: string, l: string, v: Tree, convert: Tree -> Option<nat>)
    requires k != l && Put(t, k, v, convert).Some?
    requires t.Arr? && k == LENGTH ==> IndexOf(l) == None
    ensures Child(Put(t, k, v, convert).value, l) == Child(t, l)
  {
  }

  lemma PutsCommute(t: Tree, k: string, l: string, v: Tree, w: Tree, convert: Tree -> Option<nat>)
    requires k != l
    requires t.Arr? ==> !(k == LENGTH && IndexOf(l).Some?) && !(l == LENGTH && IndexOf(k).Some?)
    ensures var a, b := Put(t, k, v, convert), Put(t, l, w, convert);
      (a.Some? && b.Some? ==> Put(a.value, l, w, convert) == Put(b.value, k, v, convert))
      && (a.Some? && b.None? ==> Put(a.value, l, w, convert).None?)
      && (a.None? && b.Some? ==> Put(b.value, k, v, convert).None?)
  {
    if t.Obj? {
      assert t.fields[k := v][l := w] == t.fields[l := w][k := v];
    } else if t.Arr? {
      assert t.items[k := v][l := w] == t.items[l := w][k := v];
      forall n: nat
        ensures IndexOf(k) == None ==> Truncated(t.items[k := v], n) == Truncated(t.items, n)[k := v]
        ensures IndexOf(l) == None ==> Truncated(t.items[l := w], n) == Truncated(t.items, n)[l := w]
      {
      }
    }
  }

  lemma PutTwice(t: Tree, k: string, v: Tree, w: Tree, convert: Tree -> Option<nat>)
    requires Put(t, k, v, convert).Some? && !(t.Arr? && k == LENGTH)
    ensures Put(Put(t, k, v, convert).value, k, w, convert) == Put(t, k, w, convert)
    ensures Own(Put(t, k, v, convert).value, k) == Some(v)
  {
    if t.Obj? { assert t.fields[k := v][k := w] == t.fields[k := w]; }
    if t.Arr? { assert t.items[k := v][k := w] == t.items[k := w]; }
  }

  /** An array length is no object: going deeper through it always fails. */
  lemma {:induction false} ThroughLengthFails(t: Tree, p: Path, v: Tree, convert: Tree -> Option<nat>)
    requires t.Arr? && |p| > 1 && p[0] == LENGTH
    ensures SetDeep(t, p, v, convert).None?
  {
    ObjectStays(map[], p[1..], v, convert);
  }

  lemma ObjectStays(fields: map<string, Tree>, p: Path, v: Tree, convert: Tree -> Option<nat>)
    requires p != []
    ensures SetDeep(Obj(fields), p, v, convert).Some? ==> SetDeep(Obj(fields), p, v, convert).value.Obj?
  {
  }

  /** What ends up under the first key of the path. */
  function Under(t: Tree, p: Path, v: Tree, convert: Tree -> Option<nat>): Option<Tree>
    requires p != []
  {
    if |p| == 1 then Some(v) else SetDeep(Child(t, p[0]), p[1..], v, convert)
  }

  lemma SetDeepIsPut(t: Tree, p: Path, v: Tree, convert: Tree -> Option<nat>)
    requires p != []
    ensures SetDeep(t, p, v, convert) ==
            match Under(t, p, v, convert) case None => None case Some(c) => Put(t, p[0], c, convert)
  {
  }

  /** Writing under one key does not touch what another write finds. */
  lemma UnderStays(t: Tree, p: Path, q: Path, c: Tree, w: Tree, convert: Tree -> Option<nat>)
    requires p != [] && q != [] && p[0] != q[0] && Put(t, p[0], c, convert).Some?
    requires t.Arr? && p[0] == LENGTH ==> IndexOf(q[0]) == None
    ensures Under(Put(t, p[0], c, convert).value, q, w, convert) == Under(t, q, w, convert)
  {
    ChildStays(t, p[0], q[0], c, convert);
  }

  predicate GoesThroughLength(t: Tree, p: Path) {
    t.Arr? && |p| > 1 && p[0] == LENGTH
  }

  /** Writes under different first keys. */
  lemma ForkCommutes(t: Tree, p: Path, q: Path, v: Tree, w: Tree, convert: Tree -> Option<nat>)
    requires p != [] && q != [] && p[0] != q[0] && Independent(p, q)
    ensures Then(SetDeep(t, p, v, convert), q, w, convert) == Then(SetDeep(t, q, w, convert), p, v, convert)
  {
    hide SetDeep, Child, IndexOf, ToLength, Truncated;
    SetDeepIsPut(t, p, v, convert);
    SetDeepIsPut(t, q, w, convert);
    var c, d := Under(t, p, v, convert), Under(t, q, w, convert);
    if GoesThroughLength(t, p) {
      ThroughLengthFails(t, p, v, convert);
      if d.Some? && Put(t, q[0], d.value, convert).Some? {
        ThroughLengthFails(Put(t, q[0], d.value, convert).value, p, v, convert);
      }
    } else if GoesThroughLength(t, q) {
      ThroughLengthFails(t, q, w, convert);
      if c.Some? && Put(t, p[0], c.value, convert).Some? {
        ThroughLengthFails(Put(t, p[0], c.value, convert).value, q, w, convert);
      }
    } else {
      PlainForkCommutes(t, p, q, v, w, convert);
    }
  }

  lemma PlainForkCommutes(t: Tree, p: Path, q: Path, v: Tree, w: Tree, convert: Tree -> Option<nat>)
    requires p != [] && q != [] && p[0] != q[0]
    requires t.Arr? ==> !(p[0] == LENGTH && IndexOf(q[0]).Some?) && !(q[0] == LENGTH && IndexOf(p[0]).Some?)
    ensures Then(SetDeep(t, p, v, convert), q, w, convert) == Then(SetDeep(t, q, w, convert), p, v, convert)
  {
    hide SetDeep, Under, Put, IndexOf;
    SetDeepIsPut(t, p, v, convert);
    SetDeepIsPut(t, q, w, convert);
    var c, d := Under(t, p, v, convert), Under(t, q, w, convert);
    if c.Some? && d.Some? { PutsCommute(t, p[0], q[0], c.value, d.value, convert); }
    if c.Some? && Put(t, p[0], c.value, convert).Some? {
      UnderStays(t, p, q, c.value, w, convert);
      SetDeepIsPut(Put(t, p[0], c.value, convert).value, q, w, convert);
    }
    if d.Some? && Put(t, q[0], d.value, convert).Some? {
      UnderStays(t, q, p, d.value, v, convert);
      SetDeepIsPut(Put(t, q[0], d.value, convert).value, p, v, convert);
    }
  }

  /** Writes at independent paths commute, failures included. */
  lemma {:induction false} SetsCommute(t: Tree, p: Path, q: Path, v: Tree, w: Tree, convert: Tree -> Option<nat>)
    requires p != [] && q != [] && Independent(p, q)
    ensures Then(SetDeep(t, p, v, convert), q, w, convert) == Then(SetDeep(t, q, w, convert), p, v, convert)
    decreases |p|
  {
    if p[0] != q[0] {
      ForkCommutes(t, p, q, v, w, convert);
    } else if GoesThroughLength(t, p) {
      assert |q| == 1 ==> q <= p;
      ThroughLengthFails(t, p, v, convert);
      ThroughLengthFails(t, q, w, convert);
    } else {
      IndependentTails(p, q);
      assert (|p| == 1 ==> p <= q) && (|q| == 1 ==> q <= p);
      SetsCommute(Child(t, p[0]), p[1..], q[1..], v, w, convert);
      SharedKeyCommutes(t, p, q, v, w, convert);
    }
  }

  lemma SharedKeyCommutes(t: Tree, p: Path, q: Path, v: Tree, w: Tree, convert: Tree -> Option<nat>)
    requires |p| > 1 && |q| > 1 && p[0] == q[0] && !GoesThroughLength(t, p)
    requires var c := Child(t, p[0]);
      Then(SetDeep(c, p[1..], v, convert), q[1..], w, convert) ==
        Then(SetDeep(c, q[1..], w, convert), p[1..], v, convert)
    ensures Then(SetDeep(t, p, v, convert), q, w, convert) == Then(SetDeep(t, q, w, convert), p, v, convert)
  {
    hide SetDeep;
    SetDeepIsPut(t, p, v, convert);
    SetDeepIsPut(t, q, w, convert);
    SecondWrite(t, p, q, v, w, convert);
    SecondWrite(t, q, p, w, v, convert);
  }

  /** The second of two writes under the same key starts from what the first put there. */
  lemma SecondWrite(t: Tree, p: Path, q: Path, v: Tree, w: Tree, convert: Tree -> Option<nat>)
    requires |p| > 1 && |q| > 1 && p[0] == q[0] && !GoesThroughLength(t, p)
    ensures var k, c := p[0], Child(t, p[0]);
      Then(SetDeep(t, p, v, convert), q, w, convert) ==
      match Then(SetDeep(c, p[1..], v, convert), q[1..], w, convert) case None => None case Some(d) =>
        Put(t, k, d, convert)
  {
    hide Truncated, IndexOf, ToLength;
    SetDeepIsPut(t, p, v, convert);
    var c := Under(t, p, v, convert);
    if c.Some? && !t.Leaf? {
      PutTwice(t, p[0], c.value, c.value, convert);
      var t' := Put(t, p[0], c.value, convert).value;
      SetDeepIsPut(t', q, w, convert);
      assert Child(t', q[0]) == c.value;
      if d: Tree :| Under(t', q, w, convert) == Some(d) {
        PutTwice(t, p[0], c.value, d, convert);
      }
    }
  }

  // Reading back what was written, and what was not.

  /** The write sets the `length` of an array. */
  predicate SetsLength(t: Tree, p: Path)
    requires p != []
    decreases |p|
  {
    if |p| == 1 then t.Arr? && p[0] == LENGTH else SetsLength(Child(t, p[0]), p[1..])
  }

  /** A written path reads back its value; only an array's length reads back as the number it became. */
  lemma {:induction false} ReadBack(t: Tree, p: Path, v: Tree, convert: Tree -> Option<nat>)
    requires p != [] && SetDeep(t, p, v, convert).Some?
    ensures SetsLength(t, p) ==> ToLength(v, convert).Some?
    ensures Get(SetDeep(t, p, v, convert).value, p) ==
            Some(if SetsLength(t, p) then Leaf(Num(ToLength(v, convert).value as real)) else v)
    decreases |p|
  {
    hide ToLength, IndexOf, Truncated;
    if |p| > 1 {
      var c := SetDeep(Child(t, p[0]), p[1..], v, convert);
      if GoesThroughLength(t, p) {
        ThroughLengthFails(t, p, v, convert);
      } else {
        ReadBack(Child(t, p[0]), p[1..], v, convert);
        PutTwice(t, p[0], c.value, c.value, convert);
      }
    }
  }

  /** The path addresses the `length` of what is an array in the tree. */
  predicate IsArrayLength(t: Tree, p: Path)
    requires p != []
  {
    var parent := Get(t, p[..|p| - 1]);
    p[|p| - 1] == LENGTH && parent.Some? && parent.value.Arr?
  }

  /** Whether a write sets an array's length can be told from its result. */
  lemma {:induction false} LengthShowsAfterwards(t: Tree, p: Path, v: Tree, convert: Tree -> Option<nat>)
    requires p != [] && SetDeep(t, p, v, convert).Some?
    ensures IsArrayLength(SetDeep(t, p, v, convert).value, p) <==> SetsLength(t, p)
    decreases |p|
  {
    hide ToLength, IndexOf, Truncated;
    if |p| > 1 {
      var c := SetDeep(Child(t, p[0]), p[1..], v, convert);
      if GoesThroughLength(t, p) {
        ThroughLengthFails(t, p, v, convert);
      } else {
        LengthShowsAfterwards(Child(t, p[0]), p[1..], v, convert);
        PutTwice(t, p[0], c.value, c.value, convert);
        assert p[..|p| - 1][1..] == p[1..][..|p| - 2];
      }
    }
  }

  lemma OtherKeyStays(t: Tree, k: string, l: string, v: Tree, convert: Tree -> Option<nat>)
    requires k != l && Put(t, k, v, convert).Some?
    requires t.Arr? && k == LENGTH ==> IndexOf(l) == None
    ensures Own(Put(t, k, v, convert).value, l) == Own(t, l) || (t.Arr? && l == LENGTH && IndexOf(k).Some?)
  {
  }

  /** A path independent of the written one reads the same before and after. */
  lemma {:induction false} FrameOfSet(t: Tree, p: Path, r: Path, v: Tree, convert: Tree -> Option<nat>)
    requires p != [] && r != [] && Independent(p, r) && SetDeep(t, p, v, convert).Some?
    ensures Get(SetDeep(t, p, v, convert).value, r) == Get(t, r)
    decreases |p|
  {
    hide IndexOf, Truncated, ToLength;
    SetDeepIsPut(t, p, v, convert);
    var c := Under(t, p, v, convert).value;
    if GoesThroughLength(t, p) {
      ThroughLengthFails(t, p, v, convert);
    } else if p[0] != r[0] {
      OtherKeyStays(t, p[0], r[0], c, convert);
    } else {
      IndependentTails(p, r);
      assert (|p| == 1 ==> p <= r) && (|r| == 1 ==> r <= p);
      FrameOfSet(Child(t, p[0]), p[1..], r[1..], v, convert);
      PutTwice(t, p[0], c, c, convert);
    }
  }

  // Dependent paths do interfere: for each such pair some tree and values show the order.

  ghost predicate Commute(t: Tree, p: Path, q: Path, v: Tree, w: Tree, convert: Tree -> Option<nat>)
    requires p != [] && q != []
  {
    Then(SetDeep(t, p, v, convert), q, w, convert) == Then(SetDeep(t, q, w, convert), p, v, convert)
  }

  /** No array lies on the way. */
  predicate Smooth(t: Tree, p: Path)
    requires p != []
    decreases |p|
  {
    t.Obj? && (|p| == 1 || Smooth(Child(t, p[0]), p[1..]))
  }

  lemma {:induction false} SmoothSets(t: Tree, p: Path, v: Tree, convert: Tree -> Option<nat>)
    requires p != [] && Smooth(t, p)
    ensures SetDeep(t, p, v, convert).Some? && !SetsLength(t, p)
    decreases |p|
  {
    if |p| > 1 { SmoothSets(Child(t, p[0]), p[1..], v, convert); }
  }

  lemma {:induction false} EmptyIsSmooth(p: Path)
    requires p != []
    ensures Smooth(Obj(map[]), p)
    decreases |p|
  {
    if |p| > 1 { EmptyIsSmooth(p[1..]); }
  }

  /** A scalar written above or below leaves the way free of arrays. */
  lemma {:induction false} StaysSmooth(t: Tree, p: Path, q: Path, v: Tree, convert: Tree -> Option<nat>)
    requires p != [] && q != [] && (p <= q || q <= p) && v.Leaf?
    requires Smooth(t, p) && Smooth(t, q)
    ensures SetDeep(t, p, v, convert).Some? && Smooth(SetDeep(t, p, v, convert).value, q)
    decreases |p|
  {
    SmoothSets(t, p, v, convert);
    if |p| == 1 {
      if |q| > 1 { EmptyIsSmooth(q[1..]); }
    } else if |q| > 1 {
      PrefixTails(p, q);
      PrefixTails(q, p);
      StaysSmooth(Child(t, p[0]), p[1..], q[1..], v, convert);
    }
  }

  lemma {:induction false} NothingBelowLeaf(t: Tree, p: Path, q: Path)
    requires p < q && Get(t, p).Some? && Get(t, p).value.Leaf?
    ensures Get(t, q) == None
    decreases |p|
  {
    if p != [] {
      PrefixTails(p, q);
      NothingBelowLeaf(Own(t, p[0]).value, p[1..], q[1..]);
    }
  }

  /** One path on top of the other: the later write wins. */
  lemma PrefixesConflict(p: Path, q: Path, v: Tree, w: Tree, convert: Tree -> Option<nat>)
    requires p != [] && p <= q && v.Leaf? && w.Leaf? && v != w
    ensures !Commute(Obj(map[]), p, q, v, w, convert)
  {
    hide SetDeep, Smooth, SetsLength, Get;
    var t := Obj(map[]);
    EmptyIsSmooth(p);
    EmptyIsSmooth(q);
    StaysSmooth(t, p, q, v, convert);
    StaysSmooth(t, q, p, w, convert);
    var t1, t2 := SetDeep(t, p, v, convert).value, SetDeep(t, q, w, convert).value;
    SmoothSets(t1, q, w, convert);
    SmoothSets(t2, p, v, convert);
    ReadBack(t1, q, w, convert);
    ReadBack(t2, p, v, convert);
    if p < q {
      NothingBelowLeaf(SetDeep(t2, p, v, convert).value, p, q);
    } else {
      assert p == q;
    }
  }

  /** Setting the length to 0 and writing an element: the element survives only if written last. */
  lemma {:induction false} LengthConflicts(p: Path, q: Path, convert: Tree -> Option<nat>) returns (t: Tree)
    requires LengthMeetsIndex(p, q)
    ensures !t.Leaf? && !Commute(t, p, q, Leaf(Num(0.0)), Leaf(Null), convert)
    decreases |p|
  {
    var v, w := Leaf(Num(0.0)), Leaf(Null);
    if p[0] == q[0] {
      var inner := LengthConflicts(p[1..], q[1..], convert);
      t := Obj(map[p[0] := inner]);
      assert Child(t, p[0]) == inner;
      assert p[1..] != [] && q[1..] != [];
      SecondWrite(t, p, q, v, w, convert);
      SecondWrite(t, q, p, w, v, convert);
      PutInjective(t, p[0]);
    } else {
      t := Arr(0, map[]);
      if |q| > 1 {
        EmptyIsSmooth(q[1..]);
        SmoothSets(Obj(map[]), q[1..], w, convert);
      }
      assert ToLength(v, convert) == Some(0);
      assert Put(t, LENGTH, v, convert) == Some(t);
      SetDeepIsPut(t, q, w, convert);
    }
  }

  lemma PutInjective(t: Tree, k: string)
    requires t.Obj?
    ensures forall c, d, convert :: Put(t, k, c, convert) == Put(t, k, d, convert) ==> c == d
  {
    forall c, d, convert: Tree -> Option<nat> | Put(t, k, c, convert) == Put(t, k, d, convert)
      ensures c == d
    {
      assert t.fields[k := c][k] == t.fields[k := d][k];
    }
  }

  /** Two deep writes commute on every tree, whatever the values, exactly when their paths are independent. */
  lemma CommuteIffIndependent(p: Path, q: Path, convert: Tree -> Option<nat>)
    requires p != [] && q != []
    ensures Independent(p, q) <==> forall t, v, w :: Commute(t, p, q, v, w, convert)
  {
    hide Commute, LengthMeetsIndex;
    var u, v := Leaf(Null), Leaf(Num(0.0));
    if Independent(p, q) {
      forall t, v, w
        ensures Commute(t, p, q, v, w, convert)
      {
        CommuteOf(t, p, q, v, w, convert);
      }
    } else if p <= q {
      PrefixesConflict(p, q, u, v, convert);
    } else if q <= p {
      PrefixesConflict(q, p, u, v, convert);
      CommuteSym(Obj(map[]), q, p, u, v, convert);
    } else if LengthMeetsIndex(p, q) {
      var t := LengthConflicts(p, q, convert);
    } else {
      var t := LengthConflicts(q, p, convert);
      CommuteSym(t, q, p, v, u, convert);
    }
  }

  lemma CommuteOf(t: Tree, p: Path, q: Path, v: Tree, w: Tree, convert: Tree -> Option<nat>)
    requires p != [] && q != [] && Independent(p, q)
    ensures Commute(t, p, q, v, w, convert)
  {
    SetsCommute(t, p, q, v, w, convert);
  }

  lemma CommuteSym(t: Tree, p: Path, q: Path, v: Tree, w: Tree, convert: Tree -> Option<nat>)
    requires p != [] && q != []
    ensures Commute(t, p, q, v, w, convert) <==> Commute(t, q, p, w, v, convert)
  {
  }
}
