// Arrays addressed by index: which keys are elements, and how an array grows and shrinks under writes.
module ConfigArrays {
  import opened Collections
  import opened Decimals
  import opened ConfigTree
  import opened ConfigOverrides

  lemma DigitValue(d: nat)
    requires d < 10
    ensures '0' <= DIGITS[d] <= '9' && (DIGITS[d] - '0') as nat == d
  {
  }

  lemma AppendDigit(s: string, c: char)
    requires '0' <= c <= '9' && forall i | 0 <= i < |s| :: '0' <= s[i] <= '9'
    ensures IsDigits(s + [c]) && Numeral(s + [c]) == 10 * Numeral(s) + (c - '0') as nat
  {
    assert (s + [c])[..|s|] == s;
  }

  lemma {:induction false} NumeralOfPrint(i: nat)
    ensures IsDigits(Print(i)) && Numeral(Print(i)) == i
  {
    hide Numeral;
    DigitValue(i % 10);
    if i < 10 {
      NoDigits();
      AppendDigit("", DIGITS[i]);
      assert "" + [DIGITS[i]] == Print(i);
    } else {
      NumeralOfPrint(i / 10);
      AppendDigit(Print(i / 10), DIGITS[i % 10]);
    }
  }

  lemma DigitText(c: char)
    requires '0' <= c <= '9'
    ensures DIGITS[(c - '0') as nat] == c
  {
  }

  lemma LastDigit(key: string)
    requires IsDigits(key)
    ensures var n, rest := Numeral(key), Numeral(key[..|key| - 1]);
      n / 10 == rest && DIGITS[n % 10] == key[|key| - 1]
  {
    hide IsDigits;
    LastIsDigit(key);
    DigitText(key[|key| - 1]);
    var d := (key[|key| - 1] - '0') as nat;
    assert Numeral(key) == 10 * Numeral(key[..|key| - 1]) + d;
  }

  lemma LastIsDigit(key: string)
    requires IsDigits(key)
    ensures key != "" && '0' <= key[|key| - 1] <= '9' && forall i | 0 <= i < |key| :: '0' <= key[i] <= '9'
  {
  }

  lemma {:induction false} PrintOfNumeral(key: string)
    requires IsDigits(key) && (key == "0" || key[0] != '0')
    ensures Print(Numeral(key)) == key && (key != "0" ==> Numeral(key) > 0)
    decreases |key|
  {
    hide Numeral;
    LastDigit(key);
    var rest := key[..|key| - 1];
    assert key == rest + [key[|key| - 1]];
    if rest == "" {
      assert Numeral(rest) == 0 by { NoDigits(); }
    } else {
      PrintOfNumeral(rest);
    }
  }

  lemma NoDigits()
    ensures Numeral("") == 0
  {
  }

  /** The elements of an array are addressed by the decimal texts of 0 to 2^32 - 2, and by no other key. */
  lemma IndicesArePrinted(key: string, i: nat)
    ensures IndexOf(key) == Some(i) <==> i < 0xFFFF_FFFF && key == Print(i)
  {
    NumeralOfPrint(i);
    if IndexOf(key) == Some(i) { PrintOfNumeral(key); }
  }

  /** Some printed index, if the key is one. */
  lemma NoIndexIffNotPrinted(key: string)
    ensures IndexOf(key) == None <==> forall i: nat | i < 0xFFFF_FFFF :: key != Print(i)
  {
    hide IndexOf;
    if i: nat :| i < 0xFFFF_FFFF && key == Print(i) { IndicesArePrinted(key, i); }
    if IndexOf(key).Some? { IndicesArePrinted(key, IndexOf(key).value); }
  }

  /** A number is taken for the length it equals, and exactly when that is from 0 to 2^32 - 1. */
  lemma LengthTaken(x: real, n: nat, convert: Tree -> Option<nat>)
    ensures ToLength(Leaf(Num(x)), convert) == Some(n) <==> x == n as real && n <= 0xFFFF_FFFF
  {
  }

  // One write at an array.

  /** The array is still one after the write, this long. */
  ghost predicate IsLong(t: Tree, n: nat) {
    t.Arr? && t.length == n
  }

  /**
   * What a successful write at or below one of its keys makes of an array: an element past the end
   * makes it just long enough, `length` cuts or extends it, and any other key leaves its length.
   */
  lemma ArrayAfterWrite(a: Tree, r: Path, v: Tree, convert: Tree -> Option<nat>)
    requires a.Arr? && r != [] && SetDeep(a, r, v, convert).Some?
    ensures var b := SetDeep(a, r, v, convert).value;
      && (forall i: nat | i < 0xFFFF_FFFF && r[0] == Print(i) :: IsLong(b, if i < a.length then a.length else i + 1))
      && (r[0] != LENGTH && (forall i: nat | i < 0xFFFF_FFFF :: r[0] != Print(i)) ==> IsLong(b, a.length))
      && (r[0] == LENGTH ==> r == [LENGTH] && ToLength(v, convert).Some? && IsLong(b, ToLength(v, convert).value))
  {
    hide IndexOf, ToLength, Truncated;
    SetDeepIsPut(a, r, v, convert);
    NoIndexIffNotPrinted(r[0]);
    forall i: nat
      ensures IndexOf(r[0]) == Some(i) <==> i < 0xFFFF_FFFF && r[0] == Print(i)
    {
      IndicesArePrinted(r[0], i);
    }
    if GoesThroughLength(a, r) { ThroughLengthFails(a, r, v, convert); }
  }

  /** Setting the length deletes exactly the elements from there on. */
  lemma ShrinkingDeletes(a: Tree, v: Tree, convert: Tree -> Option<nat>, k: string)
    requires a.Arr? && k != LENGTH && SetDeep(a, [LENGTH], v, convert).Some?
    ensures var b := SetDeep(a, [LENGTH], v, convert).value;
      if exists i: nat | ToLength(v, convert).value <= i < 0xFFFF_FFFF :: k == Print(i) then Own(b, k) == None
      else Own(b, k) == Own(a, k)
  {
    hide IndexOf, ToLength;
    if i: nat :| ToLength(v, convert).value <= i < 0xFFFF_FFFF && k == Print(i) { IndicesArePrinted(k, i); }
    if IndexOf(k).Some? { IndicesArePrinted(k, IndexOf(k).value); }
  }

  // The same at any depth.

  lemma LeafEnds(c: Tree, r: Path)
    ensures c.Leaf? ==> Get(c, r) == if r == [] then Some(c) else None
  {
  }

  /** Below a place that holds an object or array, a write goes on from there. */
  lemma {:induction false} WriteBelow(t: Tree, q: Path, r: Path, v: Tree, convert: Tree -> Option<nat>)
    requires r != [] && Get(t, q).Some? && !Get(t, q).value.Leaf?
    ensures var below := SetDeep(Get(t, q).value, r, v, convert);
      var whole := SetDeep(t, q + r, v, convert);
      (whole.Some? <==> below.Some?) && (whole.Some? ==> Get(whole.value, q) == below)
    decreases |q|
  {
    hide IndexOf, ToLength, Truncated;
    if q == [] {
      assert q + r == r;
    } else {
      var c := Own(t, q[0]).value;
      LeafEnds(c, q[1..]);
      assert (q + r)[0] == q[0] && (q + r)[1..] == q[1..] + r;
      WriteBelow(c, q[1..], r, v, convert);
      var d := SetDeep(c, q[1..] + r, v, convert);
      SetDeepIsPut(t, q + r, v, convert);
      if d.Some? { PutTwice(t, q[0], d.value, d.value, convert); }
    }
  }

  /** Writing an element of an array always succeeds and makes the array just long enough for it. */
  lemma ElementGrows(t: Tree, q: Path, i: nat, v: Tree, convert: Tree -> Option<nat>)
    requires Get(t, q).Some? && Get(t, q).value.Arr? && i < 0xFFFF_FFFF
    ensures SetDeep(t, q + [Print(i)], v, convert).Some?
    ensures var n := Get(t, q).value.length;
      Get(SetDeep(t, q + [Print(i)], v, convert).value, q + [LENGTH]) ==
        Some(Leaf(Num((if n > i then n else i + 1) as real)))
  {
    hide IndexOf, ToLength, Truncated;
    var a := Get(t, q).value;
    IndicesArePrinted(Print(i), i);
    WriteBelow(t, q, [Print(i)], v, convert);
    ArrayAfterWrite(a, [Print(i)], v, convert);
    GetBelow(SetDeep(t, q + [Print(i)], v, convert).value, q, [LENGTH]);
  }

  lemma {:induction false} GetBelow(t: Tree, q: Path, r: Path)
    requires Get(t, q).Some?
    ensures Get(t, q + r) == Get(Get(t, q).value, r)
    decreases |q|
  {
    if q == [] {
      assert q + r == r;
    } else {
      assert (q + r)[0] == q[0] && (q + r)[1..] == q[1..] + r;
      GetBelow(Own(t, q[0]).value, q[1..], r);
    }
  }

  // When a write throws.

  /** The write meets an array's `length` here: on its way to something else, or with no length to set it to. */
  predicate StopsAt(t: Tree, p: Path, v: Tree, convert: Tree -> Option<nat>, i: nat)
    requires i < |p|
  {
    && p[i] == "length" && Get(t, p[..i]).Some? && Get(t, p[..i]).value.Arr?
    && (i < |p| - 1 || ToLength(v, convert) == None)
  }

  lemma StopsBelow(t: Tree, p: Path, v: Tree, convert: Tree -> Option<nat>, i: nat)
    requires |p| > 1 && 0 < i < |p| && !t.Leaf? && !GoesThroughLength(t, p)
    ensures StopsAt(t, p, v, convert, i) <==> StopsAt(Child(t, p[0]), p[1..], v, convert, i - 1)
  {
    assert p[1..][..i - 1] == p[..i][1..];
    var child, r := Own(t, p[0]), p[1..][..i - 1];
    if child.Some? { LeafEnds(child.value, r); }
    LeafEnds(Leaf(Null), r);
    assert Get(t, p[..i]) == if child.Some? then Get(child.value, r) else None;
    assert Get(Obj(map[]), r) == if r == [] then Some(Obj(map[])) else None;
  }

  /** A write throws exactly when there is no object to write to, or it is stopped at an array's length. */
  lemma {:induction false} ThrowsIff(t: Tree, p: Path, v: Tree, convert: Tree -> Option<nat>)
    requires p != []
    ensures SetDeep(t, p, v, convert).None? <==> t.Leaf? || exists i | 0 <= i < |p| :: StopsAt(t, p, v, convert, i)
    decreases |p|
  {
    hide ToLength, IndexOf, Truncated, StopsAt;
    FirstStops(t, p, v, convert);
    if |p| > 1 && !t.Leaf? {
      if GoesThroughLength(t, p) {
        ThroughLengthFails(t, p, v, convert);
      } else {
        var c := Child(t, p[0]);
        ThrowsIff(c, p[1..], v, convert);
        forall i | 0 < i < |p|
          ensures StopsAt(t, p, v, convert, i) <==> StopsAt(c, p[1..], v, convert, i - 1)
        {
          StopsBelow(t, p, v, convert, i);
        }
        if i :| 0 <= i < |p| - 1 && StopsAt(c, p[1..], v, convert, i) {
          assert StopsAt(t, p, v, convert, i + 1);
        }
      }
    }
  }

  lemma FirstStops(t: Tree, p: Path, v: Tree, convert: Tree -> Option<nat>)
    requires p != []
    ensures StopsAt(t, p, v, convert, 0) <==> p[0] == LENGTH && t.Arr? && (|p| > 1 || ToLength(v, convert) == None)
  {
    assert p[..0] == [];
  }

  // All overrides together.

  /** The variable addresses something inside what is at `q`, or something that has nothing to do with it. */
  predicate StaysClear(key: string, q: Path) {
    IsOverride(key) ==>
      var p := Segments(key);
      if q < p then p[|q|] != LENGTH else q != [] && Independent(p, q)
  }

  /** The variable addresses element `i` of the array at `q`, or something inside it. */
  predicate Reaches(key: string, q: Path, i: nat) {
    IsOverride(key) && q + [Print(i)] <= Segments(key)
  }

  /** The array is as long as it was, or as the farthest element written needs. */
  ghost predicate JustLongEnough(n: nat, length: nat, order: seq<string>, q: Path) {
    && n <= length
    && (forall k, i: nat | k in order && i < 0xFFFF_FFFF && Reaches(k, q, i) :: i + 1 <= length)
    && (n == length || exists k, i: nat | k in order && i < 0xFFFF_FFFF && Reaches(k, q, i) :: i + 1 == length)
  }

  lemma OneGrows(t: Tree, env: map<string, string>, key: string, c: Conversions, q: Path)
    requires key in env && StaysClear(key, q) && Get(t, q).Some? && Get(t, q).value.Arr?
    requires ApplyOne(Some(t), env, key, c).Some?
    ensures var b := Get(ApplyOne(Some(t), env, key, c).value, q);
      b.Some? && b.value.Arr? && JustLongEnough(Get(t, q).value.length, b.value.length, [key], q)
  {
    hide IndexOf, ToLength, Truncated, SetDeep, Segments, Get;
    if IsOverride(key) {
      var p, v := Segments(key), c.coerce(env[key]);
      var a := Get(t, q).value;
      if q < p {
        var r := p[|q|..];
        assert p == q + r;
        WriteBelow(t, q, r, v, c.toLength);
        ArrayAfterWrite(a, r, v, c.toLength);
        forall i: nat
          ensures Reaches(key, q, i) <==> r[0] == Print(i)
        {
          assert r[0] == Print(i) ==> q + [Print(i)] == p[..|q| + 1];
        }
        if i: nat :| i < 0xFFFF_FFFF && r[0] == Print(i) {
          IndicesArePrinted(r[0], i);
          forall j: nat | j < 0xFFFF_FFFF && Reaches(key, q, j)
            ensures i == j
          {
            IndicesArePrinted(r[0], j);
          }
          assert Reaches(key, q, i);
        }
      } else {
        FrameOfSet(t, p, q, v, c.toLength);
        forall i: nat
          ensures !Reaches(key, q, i)
        {
          assert q + [Print(i)] <= p ==> q < p;
        }
      }
    }
  }

  lemma LongEnoughAdds(n: nat, m: nat, length: nat, order: seq<string>, key: string, q: Path)
    requires JustLongEnough(n, m, order, q) && JustLongEnough(m, length, [key], q)
    ensures JustLongEnough(n, length, order + [key], q)
  {
    hide Reaches;
  }

  /**
   * Overrides inside an array, at its elements or deeper, leave it just long enough for the farthest
   * element they reach, in whatever order they come.
   */
  lemma {:induction false} OverridesGrowArrays(base: Tree, env: map<string, string>, order: seq<string>, c: Conversions,
                                               q: Path)
    requires (forall k | k in order :: k in env && StaysClear(k, q))
    requires Get(base, q).Some? && Get(base, q).value.Arr? && ApplyAll(base, env, order, c).Some?
    ensures var b := Get(ApplyAll(base, env, order, c).value, q);
      b.Some? && b.value.Arr? && JustLongEnough(Get(base, q).value.length, b.value.length, order, q)
  {
    hide Get, StaysClear, Reaches, SetDeep, Segments;
    if order != [] {
      var last, rest := order[|order| - 1], order[..|order| - 1];
      assert order == rest + [last];
      OverridesGrowArrays(base, env, rest, c, q);
      var t := ApplyAll(base, env, rest, c).value;
      OneGrows(t, env, last, c, q);
      LongEnoughAdds(Get(base, q).value.length, Get(t, q).value.length,
        Get(ApplyAll(base, env, order, c).value, q).value.length, rest, last, q);
    }
  }

  lemma LowerWords()
    ensures LowerAll("INGEST_") == "ingest_" && LowerAll("BROKERS_") == "brokers_" && LowerAll("0_") == "0_"
    ensures LowerAll("HOST") == "host"
  {
  }

  lemma SpelledKeys()
    ensures Spellable("ingest") && Spellable("brokers") && Spellable("0") && Spellable("host")
  {
  }

  lemma JoinedKeys()
    ensures Join(["ingest", "brokers", "0", "host"]) == "ingest_" + ("brokers_" + ("0_" + "host"))
  {
    assert Join(["host"]) == "host";
    assert Join(["0", "host"]) == "0" + "_" + "host";
    assert Join(["brokers", "0", "host"]) == "brokers" + "_" + Join(["0", "host"]);
  }

  /** The variable the source gives as its example of an array index. */
  lemma BrokerVariable()
    ensures var key := "HOPWATCH_" + ("INGEST_" + ("BROKERS_" + ("0_" + "HOST")));
      IsOverride(key) && Segments(key) == ["ingest", "brokers", "0", "host"]
  {
    hide LowerAll, Split, Join, Spellable;
    var p, name := ["ingest", "brokers", "0", "host"], "INGEST_" + ("BROKERS_" + ("0_" + "HOST"));
    LowerAppend("0_", "HOST");
    LowerAppend("BROKERS_", "0_" + "HOST");
    LowerAppend("INGEST_", "BROKERS_" + ("0_" + "HOST"));
    LowerWords();
    SpelledKeys();
    JoinedKeys();
    assert p[0] == "ingest" && p[1] == "brokers" && p[2] == "0" && p[3] == "host";
    SplitUndoesJoin(p);
    assert ("HOPWATCH_" + name)[9..] == name;
  }
}
