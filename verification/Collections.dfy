// Small helpers shared by the other modules.
module Collections {
  datatype Option<+T> = None | Some(value: T)

  /** Some element of a non-empty set: iteration over a JavaScript Map or Set, order left open. */
  method AnyOf<T>(s: set<T>) returns (x: T)
    requires s != {}
    ensures x in s
  {
    x :| x in s;
  }

  lemma HasElement<T>(s: set<T>) returns (x: T)
    requires s != {}
    ensures x in s
  {
    x :| x in s;
  }

  lemma FirstIsIn<T>(s: seq<T>)
    ensures s == [] || s[0] in s
  {
  }

  lemma {:induction false} SubsetSize<T>(a: set<T>, b: set<T>)
    requires a <= b
    ensures |a| <= |b|
  {
    if a != {} {
      var x := HasElement(a);
      SubsetSize(a - {x}, b - {x});
    }
  }

  lemma {:induction false} InjectiveSize(s: set<nat>, f: nat -> int, t: set<nat>)
    requires forall x | x in s :: f(x) in t
    requires forall x, y | x in s && y in s && x != y :: f(x) != f(y)
    ensures |s| <= |t|
  {
    if s != {} {
      var x := HasElement(s);
      InjectiveSize(s - {x}, f, t - {f(x)});
    }
  }

  /** The numbers from `from` on, `n` of them. */
  function Range(from: nat, n: nat): (r: set<nat>)
    ensures |r| == n
    ensures forall i :: i in r <==> from <= i < from + n
  {
    if n == 0 then {} else Range(from, n - 1) + {from + n - 1}
  }

  function Elements<T>(s: seq<T>): set<T> {
    set x | x in s
  }

  lemma {:induction false} DistinctSize<T>(s: seq<T>)
    requires forall i, j | 0 <= i < j < |s| :: s[i] != s[j]
    ensures |Elements(s)| == |s|
  {
    if s != [] {
      var rest, last := s[..|s| - 1], s[|s| - 1];
      DistinctSize(rest);
      assert last !in rest;
      assert Elements(s) == Elements(rest) + {last} by { assert s == rest + [last]; }
    }
  }

  // Sums over finite sets.

  ghost function SumSet<T>(f: T -> nat, s: set<T>): nat {
    if s == {} then 0
    else
      var x :| x in s;
      f(x) + SumSet(f, s - {x})
  }

  lemma {:induction false} SumWithout<T>(f: T -> nat, s: set<T>, x: T)
    requires x in s
    ensures SumSet(f, s) == f(x) + SumSet(f, s - {x})
    decreases s
  {
    var y :| y in s && SumSet(f, s) == f(y) + SumSet(f, s - {y});
    if y != x {
      SumWithout(f, s - {y}, x);
      SumWithout(f, s - {x}, y);
      assert s - {y} - {x} == s - {x} - {y};
    }
  }

  /** Two summands that agree everywhere but at `x`. */
  lemma {:induction false} SumChanged<T>(f: T -> nat, g: T -> nat, s: set<T>, x: T)
    requires forall y | y in s && y != x :: f(y) == g(y)
    ensures x in s ==> SumSet(g, s) + f(x) == SumSet(f, s) + g(x)
    ensures x !in s ==> SumSet(g, s) == SumSet(f, s)
    decreases s
  {
    if x in s {
      SumWithout(f, s, x);
      SumWithout(g, s, x);
      SumChanged(f, g, s - {x}, x);
    } else if s != {} {
      var y := HasElement(s);
      SumWithout(f, s, y);
      SumWithout(g, s, y);
      SumChanged(f, g, s - {y}, x);
    }
  }

  function SumSeq<T>(f: T -> nat, s: seq<T>): nat {
    if s == [] then 0 else SumSeq(f, s[..|s| - 1]) + f(s[|s| - 1])
  }

  lemma {:induction false} SumSeqIsSumSet<T>(f: T -> nat, s: seq<T>)
    requires forall i, j | 0 <= i < j < |s| :: s[i] != s[j]
    ensures SumSeq(f, s) == SumSet(f, Elements(s))
  {
    if s != [] {
      var rest, last := s[..|s| - 1], s[|s| - 1];
      SumSeqIsSumSet(f, rest);
      assert s == rest + [last] && last !in rest;
      assert Elements(s) - {last} == Elements(rest);
      SumWithout(f, Elements(s), last);
    }
  }
}
