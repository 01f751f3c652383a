// The in-place form of the overrides: JavaScript objects in a store, written through a cursor.
// Sharing is explicit here, so "the base is not touched" can be said and proved.
module ConfigStore {
  import opened Collections
  import opened ConfigTree
  import opened ConfigOverrides

  datatype Slot = Prim(s: Scalar) | Ref(r: nat)

  /** An object's own properties; an array has a length as well. */
  datatype Object = Object(length: Option<nat>, props: map<string, Slot>)

  type Objects = map<nat, Object>

  // Which tree a slot stands for.

  function Kids(t: Tree): map<string, Tree> {
    match t case Leaf(_) => map[] case Obj(fields) => fields case Arr(_, items) => items
  }

  function LengthOf(t: Tree): Option<nat> { if t.Arr? then Some(t.length) else None }

  ghost predicate Models(objs: Objects, slot: Slot, t: Tree)
    decreases t
  {
    if t.Leaf? then slot == Prim(t.value)
    else
      && slot.Ref? && slot.r in objs
      && objs[slot.r].length == LengthOf(t) && objs[slot.r].props.Keys == Kids(t).Keys
      && forall k {:trigger objs[slot.r].props[k]} | k in Kids(t) :: Models(objs, objs[slot.r].props[k], Kids(t)[k])
  }

  function KidSlot(objs: Objects, slot: Slot, k: string): Slot {
    if slot.Ref? && slot.r in objs && k in objs[slot.r].props then objs[slot.r].props[k] else Prim(Null)
  }

  /** The objects a tree occupies. */
  ghost function Foot(objs: Objects, slot: Slot, t: Tree): set<nat>
    decreases t
  {
    if t.Leaf? || slot.Prim? then {}
    else {slot.r} + set k, x | k in Kids(t) && x in Foot(objs, KidSlot(objs, slot, k), Kids(t)[k]) :: x
  }

  ghost function KidFoot(objs: Objects, slot: Slot, t: Tree, k: string): set<nat>
    requires k in Kids(t)
  {
    Foot(objs, KidSlot(objs, slot, k), Kids(t)[k])
  }

  /** Nothing is shared: the parts of the tree occupy disjoint objects. */
  ghost predicate Tidy(objs: Objects, slot: Slot, t: Tree)
    decreases t
  {
    t.Leaf? || slot.Prim? ||
    (&& (forall k {:trigger KidFoot(objs, slot, t, k)} | k in Kids(t) :: slot.r !in KidFoot(objs, slot, t, k))
     && (forall k {:trigger KidSlot(objs, slot, k)} | k in Kids(t) :: Tidy(objs, KidSlot(objs, slot, k), Kids(t)[k]))
     && (forall k, l | k in Kids(t) && l in Kids(t) && k != l ::
       KidFoot(objs, slot, t, k) !! KidFoot(objs, slot, t, l)))
  }

  /** The elements of an array lie below its length, and `length` is not one of them. */
  ghost predicate SoundKeys(t: Tree) {
    t.Arr? ==> LENGTH !in t.items && forall k | k in t.items :: IndexOf(k).Some? ==> IndexOf(k).value < t.length
  }

  ghost predicate Sound(t: Tree)
    decreases t
  {
    && SoundKeys(t)
    && forall k | k in Kids(t) :: Sound(Kids(t)[k])
  }

  ghost predicate Holds(objs: Objects, slot: Slot, t: Tree) {
    Models(objs, slot, t) && Tidy(objs, slot, t) && Sound(t)
  }

  // Framing.

  ghost predicate SameOn(a: Objects, b: Objects, xs: set<nat>) {
    forall x {:trigger x in xs} | x in xs && x in a :: x in b && b[x] == a[x]
  }

  lemma HoldsModels(objs: Objects, slot: Slot, t: Tree)
    requires Holds(objs, slot, t)
    ensures Models(objs, slot, t)
  {
  }

  lemma SameOnTrans(a: Objects, b: Objects, c: Objects, xs: set<nat>, ys: set<nat>)
    requires SameOn(a, b, xs) && SameOn(b, c, ys) && xs <= ys
    ensures SameOn(a, c, xs)
  {
  }

  lemma SameOnPart(a: Objects, b: Objects, xs: set<nat>, ys: set<nat>)
    requires SameOn(a, b, xs) && ys <= xs
    ensures SameOn(a, b, ys)
  {
  }

  lemma KidFootIn(objs: Objects, slot: Slot, t: Tree, k: string)
    requires k in Kids(t) && slot.Ref?
    ensures KidFoot(objs, slot, t, k) <= Foot(objs, slot, t)
  {
  }

  lemma KidHolds(objs: Objects, slot: Slot, t: Tree, k: string)
    requires Holds(objs, slot, t) && k in Kids(t)
    ensures slot.Ref? && slot.r in objs && k in objs[slot.r].props && KidSlot(objs, slot, k) == objs[slot.r].props[k]
    ensures Holds(objs, KidSlot(objs, slot, k), Kids(t)[k]) && slot.r !in KidFoot(objs, slot, t, k)
  {
  }

  /** A tree looks the same in every store that agrees on the objects it occupies. */
  lemma {:induction false} Frame(a: Objects, b: Objects, slot: Slot, t: Tree)
    requires Holds(a, slot, t) && SameOn(a, b, Foot(a, slot, t))
    ensures Holds(b, slot, t) && Foot(b, slot, t) == Foot(a, slot, t)
    decreases t
  {
    if !t.Leaf? {
      assert slot.r in Foot(a, slot, t);
      forall k | k in Kids(t)
        ensures KidSlot(b, slot, k) == KidSlot(a, slot, k)
        ensures Holds(b, KidSlot(b, slot, k), Kids(t)[k]) && KidFoot(b, slot, t, k) == KidFoot(a, slot, t, k)
      {
        KidHolds(a, slot, t, k);
        KidFootIn(a, slot, t, k);
        Frame(a, b, KidSlot(a, slot, k), Kids(t)[k]);
      }
    }
  }

  lemma {:induction false} FootIsAllocated(objs: Objects, slot: Slot, t: Tree)
    requires Holds(objs, slot, t)
    ensures Foot(objs, slot, t) <= objs.Keys
    decreases t
  {
    if !t.Leaf? {
      forall k | k in Kids(t)
        ensures KidFoot(objs, slot, t, k) <= objs.Keys
      {
        KidHolds(objs, slot, t, k);
        FootIsAllocated(objs, KidSlot(objs, slot, k), Kids(t)[k]);
      }
      forall x | x in Foot(objs, slot, t)
        ensures x in objs.Keys
      {
        if x != slot.r {
          var k :| k in Kids(t) && x in KidFoot(objs, slot, t, k);
        }
      }
    }
  }

  // Places inside a tree.

  predicate HasPath(t: Tree, p: Path)
    decreases |p|
  {
    p == [] || (p[0] in Kids(t) && HasPath(Kids(t)[p[0]], p[1..]))
  }

  function SubAt(t: Tree, p: Path): Tree
    requires HasPath(t, p)
    decreases |p|
  {
    if p == [] then t else SubAt(Kids(t)[p[0]], p[1..])
  }

  function SlotAt(objs: Objects, slot: Slot, p: Path): Slot
    decreases |p|
  {
    if p == [] then slot else SlotAt(objs, KidSlot(objs, slot, p[0]), p[1..])
  }

  function WithKid(t: Tree, k: string, c: Tree): Tree
    requires k in Kids(t)
  {
    if t.Obj? then Obj(t.fields[k := c]) else Arr(t.length, t.items[k := c])
  }

  /** The tree with another subtree at the end of the path. */
  function Plug(t: Tree, p: Path, c: Tree): Tree
    requires HasPath(t, p)
    decreases |p|
  {
    if p == [] then c else WithKid(t, p[0], Plug(Kids(t)[p[0]], p[1..], c))
  }

  lemma {:induction false} SubHolds(objs: Objects, slot: Slot, t: Tree, p: Path)
    requires Holds(objs, slot, t) && HasPath(t, p)
    ensures Holds(objs, SlotAt(objs, slot, p), SubAt(t, p))
    ensures Foot(objs, SlotAt(objs, slot, p), SubAt(t, p)) <= Foot(objs, slot, t)
    decreases |p|
  {
    hide Holds, Foot;
    if p != [] {
      KidHolds(objs, slot, t, p[0]);
      KidFootIn(objs, slot, t, p[0]);
      assert KidFoot(objs, slot, t, p[0]) == Foot(objs, KidSlot(objs, slot, p[0]), Kids(t)[p[0]]);
      SubHolds(objs, KidSlot(objs, slot, p[0]), Kids(t)[p[0]], p[1..]);
    }
  }

  lemma RootIn(objs: Objects, slot: Slot, t: Tree)
    requires Holds(objs, slot, t) && !t.Leaf?
    ensures slot.Ref? && slot.r in objs && slot.r in Foot(objs, slot, t)
    ensures objs[slot.r].length == LengthOf(t) && objs[slot.r].props.Keys == Kids(t).Keys && SoundKeys(t)
  {
  }

  lemma OtherKidsStay(a: Objects, b: Objects, slot: Slot, t: Tree, k: string, l: string)
    requires Holds(a, slot, t) && k in Kids(t) && l in Kids(t) && k != l
    requires SameOn(a, b, Foot(a, slot, t) - KidFoot(a, slot, t, k))
    ensures slot.Ref? && slot.r in b && slot.r in a && b[slot.r] == a[slot.r] &&
      KidSlot(b, slot, l) == KidSlot(a, slot, l)
    ensures Holds(b, KidSlot(b, slot, l), Kids(t)[l]) && KidFoot(b, slot, t, l) == KidFoot(a, slot, t, l)
  {
    hide Holds, Foot;
    RootStays(a, b, slot, t, k);
    KidHolds(a, slot, t, l);
    KidFootIn(a, slot, t, l);
    KidsApart(a, slot, t, k, l);
    SameOnPart(a, b, Foot(a, slot, t) - KidFoot(a, slot, t, k), KidFoot(a, slot, t, l));
    Frame(a, b, KidSlot(a, slot, l), Kids(t)[l]);
  }

  lemma KidsApart(a: Objects, slot: Slot, t: Tree, k: string, l: string)
    requires Holds(a, slot, t) && k in Kids(t) && l in Kids(t) && k != l
    ensures KidFoot(a, slot, t, k) !! KidFoot(a, slot, t, l)
  {
  }

  lemma RootStays(a: Objects, b: Objects, slot: Slot, t: Tree, k: string)
    requires Holds(a, slot, t) && k in Kids(t)
    requires SameOn(a, b, Foot(a, slot, t) - KidFoot(a, slot, t, k))
    ensures slot.Ref? && slot.r in b && slot.r in a && b[slot.r] == a[slot.r]
  {
    RootIn(a, slot, t);
    KidHolds(a, slot, t, k);
    assert slot.r in Foot(a, slot, t) - KidFoot(a, slot, t, k);
  }

  lemma Assemble(objs: Objects, slot: Slot, t: Tree)
    requires !t.Leaf? && slot.Ref? && slot.r in objs && SoundKeys(t)
    requires objs[slot.r].length == LengthOf(t) && objs[slot.r].props.Keys == Kids(t).Keys
    requires forall k {:trigger KidSlot(objs, slot, k)} | k in Kids(t) ::
      Holds(objs, KidSlot(objs, slot, k), Kids(t)[k])
    requires forall k {:trigger KidFoot(objs, slot, t, k)} | k in Kids(t) :: slot.r !in KidFoot(objs, slot, t, k)
    requires forall k, l | k in Kids(t) && l in Kids(t) && k != l ::
      KidFoot(objs, slot, t, k) !! KidFoot(objs, slot, t, l)
    ensures Holds(objs, slot, t)
  {
    forall k | k in Kids(t)
      ensures Models(objs, objs[slot.r].props[k], Kids(t)[k])
    {
      assert objs[slot.r].props[k] == KidSlot(objs, slot, k);
    }
    forall k | k in Kids(t)
      ensures Sound(Kids(t)[k])
    {
      assert Holds(objs, KidSlot(objs, slot, k), Kids(t)[k]);
    }
  }

  lemma FootBound(objs: Objects, slot: Slot, t: Tree, xs: set<nat>)
    requires !t.Leaf? && slot.Ref? && slot.r in xs
    requires forall k {:trigger KidFoot(objs, slot, t, k)} | k in Kids(t) :: KidFoot(objs, slot, t, k) <= xs
    ensures Foot(objs, slot, t) <= xs
  {
    forall x | x in Foot(objs, slot, t)
      ensures x in xs
    {
      if x != slot.r {
        var k :| k in Kids(t) && x in KidFoot(objs, slot, t, k);
      }
    }
  }

  /** One level: a rewritten child. */
  lemma {:induction false} WithKidHolds(a: Objects, b: Objects, slot: Slot, t: Tree, k: string, c: Tree,
                                        extra: set<nat>)
    requires Holds(a, slot, t) && k in Kids(t)
    requires SameOn(a, b, Foot(a, slot, t) - KidFoot(a, slot, t, k))
    requires Holds(b, KidSlot(a, slot, k), c)
    requires Foot(b, KidSlot(a, slot, k), c) <= KidFoot(a, slot, t, k) + extra
    requires extra !! Foot(a, slot, t)
    ensures Holds(b, slot, WithKid(t, k, c)) && KidSlot(b, slot, k) == KidSlot(a, slot, k)
    ensures Foot(b, slot, WithKid(t, k, c)) <= Foot(a, slot, t) + extra
  {
    hide Holds, Foot;
    var u := WithKid(t, k, c);
    RootStays(a, b, slot, t, k);
    RootIn(a, slot, t);
    KidHolds(a, slot, t, k);
    forall l | l in Kids(u)
      ensures Holds(b, KidSlot(b, slot, l), Kids(u)[l])
      ensures KidFoot(b, slot, u, l) <= (if l == k then KidFoot(a, slot, t, k) + extra else KidFoot(a, slot, t, l))
    {
      if l != k { OtherKidsStay(a, b, slot, t, k, l); }
    }
    ApartStill(a, b, slot, t, u, k, extra);
    Assemble(b, slot, u);
    FootBound(b, slot, u, Foot(a, slot, t) + extra);
  }

  ghost function KidFootIfAny(objs: Objects, slot: Slot, t: Tree, k: string): set<nat> {
    if k in Kids(t) then KidFoot(objs, slot, t, k) else {}
  }

  lemma ApartStill(a: Objects, b: Objects, slot: Slot, t: Tree, u: Tree, k: string, extra: set<nat>)
    requires Holds(a, slot, t) && !t.Leaf? && Kids(u).Keys <= Kids(t).Keys + {k}
    requires forall l | l in Kids(u) ::
      KidFoot(b, slot, u, l) <= (if l == k then KidFootIfAny(a, slot, t, k) + extra else KidFoot(a, slot, t, l))
    requires extra !! Foot(a, slot, t)
    ensures forall l {:trigger KidFoot(b, slot, u, l)} | l in Kids(u) ::
      KidFoot(b, slot, u, l) <= Foot(a, slot, t) + extra && slot.r !in KidFoot(b, slot, u, l)
    ensures forall l, m | l in Kids(u) && m in Kids(u) && l != m :: KidFoot(b, slot, u, l) !! KidFoot(b, slot, u, m)
  {
    hide Holds, Foot, KidFoot;
    RootIn(a, slot, t);
    forall l | l in Kids(u)
      ensures KidFoot(b, slot, u, l) <= Foot(a, slot, t) + extra && slot.r !in KidFoot(b, slot, u, l)
    {
      if l in Kids(t) {
        KidFootIn(a, slot, t, l);
        KidHolds(a, slot, t, l);
      }
    }
    forall l, m | l in Kids(u) && m in Kids(u) && l != m
      ensures KidFoot(b, slot, u, l) !! KidFoot(b, slot, u, m)
    {
      if l in Kids(t) { KidFootIn(a, slot, t, l); }
      if m in Kids(t) { KidFootIn(a, slot, t, m); }
      if l in Kids(t) && m in Kids(t) { KidsApart(a, slot, t, l, m); }
    }
  }

  /** Rewriting one subtree in place, with further objects if need be, rewrites the tree. */
  lemma {:induction false} PlugHolds(a: Objects, b: Objects, slot: Slot, t: Tree, p: Path, c: Tree, extra: set<nat>)
    requires Holds(a, slot, t) && HasPath(t, p)
    requires SameOn(a, b, Foot(a, slot, t) - Foot(a, SlotAt(a, slot, p), SubAt(t, p)))
    requires Holds(b, SlotAt(a, slot, p), c)
    requires Foot(b, SlotAt(a, slot, p), c) <= Foot(a, SlotAt(a, slot, p), SubAt(t, p)) + extra
    requires extra !! Foot(a, slot, t)
    ensures Holds(b, slot, Plug(t, p, c)) && SlotAt(b, slot, p) == SlotAt(a, slot, p)
    ensures Foot(b, slot, Plug(t, p, c)) <= Foot(a, slot, t) + extra
    decreases |p|
  {
    hide Holds, Foot;
    if p != [] {
      var k := p[0];
      KidHolds(a, slot, t, k);
      KidFootIn(a, slot, t, k);
      var kid := KidSlot(a, slot, k);
      SubHolds(a, kid, Kids(t)[k], p[1..]);
      assert KidFoot(a, slot, t, k) == Foot(a, kid, Kids(t)[k]);
      SameOnPart(a, b, Foot(a, slot, t) - Foot(a, SlotAt(a, slot, p), SubAt(t, p)),
        KidFoot(a, slot, t, k) - Foot(a, SlotAt(a, slot, p), SubAt(t, p)));
      SameOnPart(a, b, Foot(a, slot, t) - Foot(a, SlotAt(a, slot, p), SubAt(t, p)),
        Foot(a, slot, t) - KidFoot(a, slot, t, k));
      PlugHolds(a, b, kid, Kids(t)[k], p[1..], c, extra);
      WithKidHolds(a, b, slot, t, k, Plug(Kids(t)[k], p[1..], c), extra);
    }
  }

  // One assignment `cursor[key] = value`.

  /** `n` is the array length the value converts to. */
  function PutObject(o: Object, key: string, value: Slot, n: Option<nat>): Option<Object> {
    match o.length
    case None => Some(Object(None, o.props[key := value]))
    case Some(length) =>
      if key == LENGTH then
        match n
        case None => None
        case Some(m) => Some(Object(n, map k | k in o.props && (IndexOf(k) == None || IndexOf(k).value < m) ::
          o.props[k]))
      else
        var grown := match IndexOf(key) case Some(i) => (if i >= length then i + 1 else length) case None => length;
        Some(Object(Some(grown), o.props[key := value]))
  }

  lemma PutMatches(o: Object, t: Tree, key: string, value: Slot, v: Tree, convert: Tree -> Option<nat>)
    requires !t.Leaf? && o.length == LengthOf(t) && o.props.Keys == Kids(t).Keys && SoundKeys(t)
    ensures PutObject(o, key, value, ToLength(v, convert)).Some? <==> Put(t, key, v, convert).Some?
    ensures Put(t, key, v, convert).Some? ==>
      var q, u := PutObject(o, key, value, ToLength(v, convert)).value, Put(t, key, v, convert).value;
      && !u.Leaf? && q.length == LengthOf(u) && q.props.Keys == Kids(u).Keys && SoundKeys(u)
      && (forall l | l in Kids(u) ::
        if l == key then q.props[l] == value && Kids(u)[l] == v
        else l in Kids(t) && q.props[l] == o.props[l] && Kids(u)[l] == Kids(t)[l])
  {
    hide ToLength;
  }

  lemma PutHolds(a: Objects, slot: Slot, t: Tree, key: string, value: Slot, v: Tree, convert: Tree -> Option<nat>)
    requires Holds(a, slot, t) && !t.Leaf?
    requires Holds(a, value, v) && Foot(a, value, v) !! Foot(a, slot, t)
    ensures slot.Ref? && slot.r in a && slot.r in Foot(a, slot, t)
    ensures PutObject(a[slot.r], key, value, ToLength(v, convert)).Some? <==> Put(t, key, v, convert).Some?
    ensures Put(t, key, v, convert).Some? ==>
      var b := a[slot.r := PutObject(a[slot.r], key, value, ToLength(v, convert)).value];
      Holds(b, slot, Put(t, key, v, convert).value)
      && Foot(b, slot, Put(t, key, v, convert).value) <= Foot(a, slot, t) + Foot(a, value, v)
  {
    hide Holds, Foot, ToLength, Put, PutObject;
    RootIn(a, slot, t);
    PutMatches(a[slot.r], t, key, value, v, convert);
    if Put(t, key, v, convert).Some? {
      var b := a[slot.r := PutObject(a[slot.r], key, value, ToLength(v, convert)).value];
      var u := Put(t, key, v, convert).value;
      forall l | l in Kids(u)
        ensures Holds(b, KidSlot(b, slot, l), Kids(u)[l])
        ensures KidFoot(b, slot, u, l) == (if l == key then Foot(a, value, v) else KidFoot(a, slot, t, l))
      {
        if l == key {
          Frame(a, b, value, v);
        } else {
          KidHolds(a, slot, t, l);
          Frame(a, b, KidSlot(a, slot, l), Kids(t)[l]);
        }
      }
      ApartStill(a, b, slot, t, u, key, Foot(a, value, v));
      Assemble(b, slot, u);
      FootBound(b, slot, u, Foot(a, slot, t) + Foot(a, value, v));
    }
  }

  /** Assigning through a cursor that has walked down the path. */
  lemma {:induction false} AssignHolds(a: Objects, root: Slot, t: Tree, p: Path, key: string, value: Slot, v: Tree,
                                       convert: Tree -> Option<nat>)
    requires Holds(a, root, t) && HasPath(t, p) && !SubAt(t, p).Leaf?
    requires Holds(a, value, v) && Foot(a, value, v) !! Foot(a, root, t)
    ensures var cursor := SlotAt(a, root, p);
      && cursor.Ref? && cursor.r in a && cursor.r in Foot(a, root, t)
      && var o := PutObject(a[cursor.r], key, value, ToLength(v, convert));
        && (o.Some? <==> Put(SubAt(t, p), key, v, convert).Some?)
        && (o.Some? ==>
          var b, u := a[cursor.r := o.value], Plug(t, p, Put(SubAt(t, p), key, v, convert).value);
          Holds(b, root, u) && SlotAt(b, root, p) == cursor && Foot(b, root, u) <= Foot(a, root, t) + Foot(a, value, v))
  {
    hide Holds, Foot, ToLength, Put, PutObject;
    var cursor, sub := SlotAt(a, root, p), SubAt(t, p);
    SubHolds(a, root, t, p);
    PutHolds(a, cursor, sub, key, value, v, convert);
    var o := PutObject(a[cursor.r], key, value, ToLength(v, convert));
    if o.Some? {
      PlugHolds(a, a[cursor.r := o.value], root, t, p, Put(sub, key, v, convert).value, Foot(a, value, v));
    }
  }

  // What is left to do when the cursor has walked down `p`.

  function Pending(t: Tree, p: Path, rest: Path, v: Tree, convert: Tree -> Option<nat>): Option<Tree>
    requires HasPath(t, p) && rest != []
  {
    match SetDeep(SubAt(t, p), rest, v, convert)
    case None => None
    case Some(c) => Some(Plug(t, p, c))
  }

  lemma {:induction false} PathSnoc(objs: Objects, slot: Slot, t: Tree, p: Path, k: string, c: Tree)
    requires HasPath(t, p) && k in Kids(SubAt(t, p))
    ensures HasPath(t, p + [k]) && SubAt(t, p + [k]) == Kids(SubAt(t, p))[k]
    ensures Plug(t, p + [k], c) == Plug(t, p, WithKid(SubAt(t, p), k, c))
    ensures SlotAt(objs, slot, p + [k]) == KidSlot(objs, SlotAt(objs, slot, p), k)
    decreases |p|
  {
    if p != [] {
      assert (p + [k])[1..] == p[1..] + [k];
      PathSnoc(objs, KidSlot(objs, slot, p[0]), Kids(t)[p[0]], p[1..], k, c);
    }
  }

  lemma {:induction false} PlugTwice(t: Tree, p: Path, c: Tree, d: Tree)
    requires HasPath(t, p)
    ensures HasPath(Plug(t, p, c), p) && SubAt(Plug(t, p, c), p) == c
    ensures Plug(Plug(t, p, c), p, d) == Plug(t, p, d)
    decreases |p|
  {
    if p != [] { PlugTwice(Kids(t)[p[0]], p[1..], c, d); }
  }

  predicate Enters(t: Tree, key: string) {
    key in Kids(t) && !Kids(t)[key].Leaf?
  }

  lemma EnterStep(t: Tree, p: Path, key: string, rest: Path, v: Tree, convert: Tree -> Option<nat>)
    requires HasPath(t, p) && rest != [] && SoundKeys(SubAt(t, p)) && Enters(SubAt(t, p), key)
    ensures HasPath(t, p + [key]) && Pending(t, p + [key], rest, v, convert) == Pending(t, p, [key] + rest, v, convert)
  {
    var sub := SubAt(t, p);
    assert ([key] + rest)[1..] == rest;
    SetDeepIsPut(sub, [key] + rest, v, convert);
    var c := SetDeep(Kids(sub)[key], rest, v, convert);
    PathSnoc(map[], Prim(Null), t, p, key, if c.Some? then c.value else t);
  }

  lemma MakeStep(t: Tree, p: Path, key: string, rest: Path, v: Tree, convert: Tree -> Option<nat>)
    requires HasPath(t, p) && rest != [] && SoundKeys(SubAt(t, p)) && !Enters(SubAt(t, p), key) && !SubAt(t, p).Leaf?
    ensures var made := Put(SubAt(t, p), key, Obj(map[]), convert);
      if made.None? then Pending(t, p, [key] + rest, v, convert).None?
      else
        var u := Plug(t, p, made.value);
        && HasPath(u, p + [key]) && SubAt(u, p + [key]) == Obj(map[]) && HasPath(u, p) && key in Kids(SubAt(u, p))
        && Pending(u, p + [key], rest, v, convert) == Pending(t, p, [key] + rest, v, convert)
  {
    hide SetDeep, IndexOf, ToLength, Truncated;
    var sub := SubAt(t, p);
    assert ([key] + rest)[1..] == rest;
    SetDeepIsPut(sub, [key] + rest, v, convert);
    if sub.Arr? && key == LENGTH {
      ThroughLengthFails(sub, [key] + rest, v, convert);
      LengthIsNoObject(sub, convert);
    } else {
      var made := Put(sub, key, Obj(map[]), convert).value;
      var c := SetDeep(Obj(map[]), rest, v, convert);
      var d := if c.Some? then c.value else t;
      PutTwice(sub, key, Obj(map[]), d, convert);
      PlugTwice(t, p, made, WithKid(made, key, d));
      PathSnoc(map[], Prim(Null), Plug(t, p, made), p, key, d);
    }
  }

  lemma LastStep(t: Tree, p: Path, key: string, v: Tree, convert: Tree -> Option<nat>)
    requires HasPath(t, p)
    ensures Pending(t, p, [key], v, convert) ==
            match Put(SubAt(t, p), key, v, convert) case None => None case Some(c) => Some(Plug(t, p, c))
  {
  }

  lemma LeafIsPrim(objs: Objects, slot: Slot, t: Tree)
    requires Holds(objs, slot, t)
    ensures slot.Prim? <==> t.Leaf?
  {
  }

  lemma LeafRefuses(t: Tree, path: Path, v: Tree, convert: Tree -> Option<nat>)
    requires t.Leaf? && path != []
    ensures SetDeep(t, path, v, convert).None?
  {
  }

  lemma LengthIsNoObject(t: Tree, convert: Tree -> Option<nat>)
    requires t.Arr?
    ensures Put(t, LENGTH, Obj(map[]), convert).None?
  {
  }

  /** The tree a slot holds, read off the store. */
  function Read(objs: Objects, slot: Slot, ghost t: Tree): (r: Tree)
    requires Models(objs, slot, t)
    ensures r == t
    decreases t
  {
    match slot
    case Prim(s) => Leaf(s)
    case Ref(r) =>
      var kids := map k | k in objs[r].props :: Read(objs, objs[r].props[k], Kids(t)[k]);
      if objs[r].length.Some? then Arr(objs[r].length.value, kids) else Obj(kids)
  }

  ghost predicate Apart(objs: Objects, x: Slot, t: Tree, y: Slot, u: Tree) {
    Foot(objs, x, t) !! Foot(objs, y, u)
  }

  lemma KidsAreSlots(objs: Objects, slot: Slot, t: Tree, key: string)
    requires Holds(objs, slot, t) && !t.Leaf?
    ensures slot.Ref? && slot.r in objs && SoundKeys(t)
    ensures Enters(t, key) <==> key in objs[slot.r].props && objs[slot.r].props[key].Ref?
  {
    if key in Kids(t) { KidHolds(objs, slot, t, key); }
  }

  lemma EmptyHolds(a: Objects, b: Objects, made: Slot, root: Slot, t: Tree, p: Path)
    requires Holds(a, root, t) && HasPath(t, p)
    requires made.Ref? && made.r !in a && b == a[made.r := Object(None, map[])]
    ensures Holds(b, made, Obj(map[])) && Foot(b, made, Obj(map[])) == {made.r}
    ensures Holds(b, root, t) && Foot(b, root, t) == Foot(a, root, t) && Apart(b, made, Obj(map[]), root, t)
    ensures SlotAt(b, root, p) == SlotAt(a, root, p)
  {
    FootIsAllocated(a, root, t);
    Frame(a, b, root, t);
    PlacesStay(a, b, root, t, p);
  }

  lemma {:induction false} PlacesStay(a: Objects, b: Objects, slot: Slot, t: Tree, p: Path)
    requires Holds(a, slot, t) && HasPath(t, p) && SameOn(a, b, Foot(a, slot, t))
    ensures SlotAt(b, slot, p) == SlotAt(a, slot, p)
    decreases |p|
  {
    hide Holds, Foot;
    if p != [] {
      RootIn(a, slot, t);
      KidHolds(a, slot, t, p[0]);
      KidFootIn(a, slot, t, p[0]);
      SameOnPart(a, b, Foot(a, slot, t), KidFoot(a, slot, t, p[0]));
      PlacesStay(a, b, KidSlot(a, slot, p[0]), Kids(t)[p[0]], p[1..]);
    }
  }

  /** Two writes in a row, the second within the tree the first left. */
  lemma KeptOutside(a: Objects, b: Objects, c: Objects, foot: set<nat>, next: set<nat>)
    requires SameOn(a, b, a.Keys - foot) && SameOn(b, c, b.Keys - next)
    requires next !! (a.Keys - foot)
    ensures SameOn(a, c, a.Keys - foot)
  {
    forall x | x in a.Keys - foot
      ensures x in c && c[x] == a[x]
    {
      assert x in b && b[x] == a[x];
      assert x in b.Keys - next;
    }
  }

  /** The objects under one slot, none of them in `old_`. */
  ghost predicate NewTree(objs: Objects, slot: Slot, t: Tree, old_: set<nat>) {
    Holds(objs, slot, t) && Foot(objs, slot, t) !! old_
  }

  lemma AssembleNew(a: Objects, b: Objects, made: Slot, t: Tree, props: map<string, Slot>, old_: set<nat>)
    requires !t.Leaf? && Sound(t) && props.Keys == Kids(t).Keys && old_ <= a.Keys
    requires forall k | k in props :: NewTree(a, props[k], Kids(t)[k], old_)
    requires forall k, l | k in props && l in props && k != l :: Apart(a, props[k], Kids(t)[k], props[l], Kids(t)[l])
    requires made.Ref? && made.r !in a && b == a[made.r := Object(LengthOf(t), props)]
    ensures NewTree(b, made, t, old_)
  {
    hide Holds, Foot, Sound;
    SoundRoot(t);
    forall k | k in props
      ensures KidSlot(b, made, k) == props[k] && Holds(b, props[k], Kids(t)[k])
      ensures KidFoot(b, made, t, k) == Foot(a, props[k], Kids(t)[k]) && KidFoot(b, made, t, k) <= a.Keys - old_
    {
      FootIsAllocated(a, props[k], Kids(t)[k]);
      Frame(a, b, props[k], Kids(t)[k]);
    }
    Assemble(b, made, t);
    FootBound(b, made, t, a.Keys + {made.r} - old_);
  }

  lemma LeafHolds(objs: Objects, t: Tree)
    requires t.Leaf?
    ensures forall xs :: NewTree(objs, Prim(t.value), t, xs)
  {
  }

  lemma KidsStay(a: Objects, b: Objects, t: Tree, props: map<string, Slot>, key: string, kid: Slot, old_: set<nat>)
    requires key in Kids(t) && key !in props && props.Keys <= Kids(t).Keys && old_ <= a.Keys && SameOn(a, b, a.Keys)
    requires forall k | k in props :: NewTree(a, props[k], Kids(t)[k], old_)
    requires forall k, l | k in props && l in props && k != l :: Apart(a, props[k], Kids(t)[k], props[l], Kids(t)[l])
    requires NewTree(b, kid, Kids(t)[key], a.Keys)
    ensures var more := props[key := kid];
      && (forall k | k in more :: NewTree(b, more[k], Kids(t)[k], old_))
      && (forall k, l | k in more && l in more && k != l :: Apart(b, more[k], Kids(t)[k], more[l], Kids(t)[l]))
  {
    hide Holds, Foot;
    forall k | k in props
      ensures NewTree(b, props[k], Kids(t)[k], old_)
      ensures Foot(b, props[k], Kids(t)[k]) == Foot(a, props[k], Kids(t)[k]) && Foot(b, props[k], Kids(t)[k]) <= a.Keys
    {
      FootIsAllocated(a, props[k], Kids(t)[k]);
      SameOnPart(a, b, a.Keys, Foot(a, props[k], Kids(t)[k]));
      Frame(a, b, props[k], Kids(t)[k]);
    }
    var more := props[key := kid];
    forall k, l | k in more && l in more && k != l
      ensures Apart(b, more[k], Kids(t)[k], more[l], Kids(t)[l])
    {
      if k in props && l in props {
        assert Apart(a, props[k], Kids(t)[k], props[l], Kids(t)[l]);
      }
    }
  }

  lemma SoundRoot(t: Tree)
    requires Sound(t)
    ensures SoundKeys(t) && forall k | k in Kids(t) :: Sound(Kids(t)[k])
  {
  }

  lemma BaseStays(a: Objects, b: Objects, base: Slot, t: Tree)
    requires Holds(a, base, t) && SameOn(a, b, a.Keys)
    ensures Holds(b, base, t)
  {
    FootIsAllocated(a, base, t);
    SameOnPart(a, b, a.Keys, Foot(a, base, t));
    Frame(a, b, base, t);
  }

  lemma AllOfNone(t: Tree, env: map<string, string>, c: Conversions)
    ensures ApplyAll(t, env, [], c) == Some(t)
  {
  }

  lemma {:induction false} FailureStays(t: Tree, env: map<string, string>, order: seq<string>, i: nat, c: Conversions)
    requires i <= |order| && (forall k | k in order :: k in env)
    requires ApplyAll(t, env, order[..i], c).None?
    ensures ApplyAll(t, env, order, c).None?
    decreases |order|
  {
    if i < |order| {
      var rest := order[..|order| - 1];
      assert rest[..i] == order[..i];
      FailureStays(t, env, rest, i, c);
    } else {
      assert order[..i] == order;
    }
  }

  class Store {
    var objs: Objects
    var next: nat

    ghost predicate Valid()
      reads this
    {
      forall r | r in objs :: r < next
    }

    constructor ()
      ensures Valid() && objs == map[]
    {
      objs, next := map[], 0;
    }

    method Alloc(o: Object) returns (s: Slot)
      requires Valid()
      modifies this
      ensures Valid() && s.Ref? && s.r !in old(objs) && objs == old(objs)[s.r := o]
    {
      s := Ref(next);
      objs, next := objs[next := o], next + 1;
    }

    /** Makes a tree out of new objects. */
    method Build(t: Tree) returns (slot: Slot)
      requires Valid() && Sound(t)
      modifies this
      ensures Valid() && NewTree(objs, slot, t, old(objs).Keys)
      ensures old(objs).Keys <= objs.Keys && SameOn(old(objs), objs, old(objs).Keys)
      decreases t
    {
      hide Holds, Foot, Sound;
      if t.Leaf? {
        LeafHolds(objs, t);
        return Prim(t.value);
      }
      SoundRoot(t);
      var props: map<string, Slot> := map[];
      var todo := Kids(t).Keys;
      while todo != {}
        invariant Valid() && old(objs).Keys <= objs.Keys && SameOn(old(objs), objs, old(objs).Keys)
        invariant props.Keys == Kids(t).Keys - todo && todo <= Kids(t).Keys
        invariant forall k | k in props :: NewTree(objs, props[k], Kids(t)[k], old(objs).Keys)
        invariant forall k, l | k in props && l in props && k != l ::
          Apart(objs, props[k], Kids(t)[k], props[l], Kids(t)[l])
        decreases todo
      {
        var key := AnyOf(todo);
        ghost var was := objs;
        var kid := Build(Kids(t)[key]);
        SameOnTrans(old(objs), was, objs, old(objs).Keys, was.Keys);
        KidsStay(was, objs, t, props, key, kid, old(objs).Keys);
        props, todo := props[key := kid], todo - {key};
      }
      ghost var was := objs;
      slot := Alloc(Object(LengthOf(t), props));
      AssembleNew(was, objs, slot, t, props, old(objs).Keys);
    }

    /** A deep copy: the tree is read off and made anew. */
    method StructuredClone(slot: Slot, ghost t: Tree) returns (copy: Slot)
      requires Valid() && Holds(objs, slot, t)
      modifies this
      ensures Valid() && NewTree(objs, copy, t, old(objs).Keys)
      ensures old(objs).Keys <= objs.Keys && SameOn(old(objs), objs, old(objs).Keys)
    {
      hide Foot;
      copy := Build(Read(objs, slot, t));
    }

    /** `cursor[key] = value`, the cursor having walked down `p` in the tree `t` at `root`. */
    method Assign(cursor: Slot, key: string, value: Slot, convert: Tree -> Option<nat>,
                  ghost root: Slot, ghost t: Tree, ghost p: Path, ghost v: Tree)
      returns (ok: bool)
      requires Valid() && Holds(objs, root, t) && HasPath(t, p) && !SubAt(t, p).Leaf? && cursor == SlotAt(objs, root, p)
      requires Holds(objs, value, v) && Apart(objs, value, v, root, t)
      modifies this
      ensures Valid() && next == old(next)
      ensures ok <==> Put(SubAt(t, p), key, v, convert).Some?
      ensures ok ==>
        var u := Plug(t, p, Put(SubAt(t, p), key, v, convert).value);
        Holds(objs, root, u) && SlotAt(objs, root, p) == cursor
        && Foot(objs, root, u) <= old(Foot(objs, root, t)) + old(Foot(objs, value, v))
      ensures objs.Keys == old(objs).Keys && SameOn(old(objs), objs, old(objs).Keys - old(Foot(objs, root, t)))
    {
      hide Holds, Foot, Put, PutObject, ToLength;
      AssignHolds(objs, root, t, p, key, value, v, convert);
      HoldsModels(objs, value, v);
      var o := PutObject(objs[cursor.r], key, value, ToLength(Read(objs, value, v), convert));
      ok := o.Some?;
      if ok { objs := objs[cursor.r := o.value]; }
    }

    /** One step of the walk: into the object under `key`, or into a new one put there. */
    method Step(cursor: Slot, key: string, convert: Tree -> Option<nat>,
                ghost root: Slot, ghost t: Tree, ghost p: Path, ghost rest: Path, ghost v: Tree)
      returns (child: Option<Slot>, ghost u: Tree)
      requires Valid() && Holds(objs, root, t) && HasPath(t, p) && !SubAt(t, p).Leaf? && cursor == SlotAt(objs, root, p)
      requires rest != []
      modifies this
      ensures Valid() && old(objs).Keys <= objs.Keys
      ensures child.None? ==> Pending(t, p, [key] + rest, v, convert).None?
      ensures child.Some? ==>
        && Holds(objs, root, u) && HasPath(u, p + [key]) && !SubAt(u, p + [key]).Leaf?
        && child.value == SlotAt(objs, root, p + [key])
        && Pending(u, p + [key], rest, v, convert) == Pending(t, p, [key] + rest, v, convert)
        && Foot(objs, root, u) !! (old(objs).Keys - old(Foot(objs, root, t)))
      ensures SameOn(old(objs), objs, old(objs).Keys - old(Foot(objs, root, t)))
    {
      hide Holds, Foot, Put, PutObject, ToLength, Pending;
      u := t;
      ghost var sub := SubAt(t, p);
      SubHolds(objs, root, t, p);
      RootIn(objs, cursor, sub);
      KidsAreSlots(objs, cursor, sub, key);
      if !(key in objs[cursor.r].props && objs[cursor.r].props[key].Ref?) {
        var made := Alloc(Object(None, map[]));
        ghost var grown := objs;
        EmptyHolds(old(objs), objs, made, root, t, p);
        MakeStep(t, p, key, rest, v, convert);
        var ok := Assign(cursor, key, made, convert, root, t, p, Obj(map[]));
        SameOnTrans(old(objs), grown, objs, old(objs).Keys - Foot(old(objs), root, t),
          grown.Keys - Foot(old(objs), root, t));
        if !ok { return None, t; }
        u := Plug(t, p, Put(sub, key, Obj(map[]), convert).value);
      } else {
        EnterStep(t, p, key, rest, v, convert);
      }
      PathSnoc(objs, root, u, p, key, u);
      SubHolds(objs, root, u, p);
      RootIn(objs, cursor, SubAt(u, p));
      child := Some(objs[cursor.r].props[key]);
    }

    /**
     * Writes `value`, a freshly made object graph, at a path below `root`: walks a cursor down,
     * putting an empty object wherever there is nothing to walk into. `ok` is false for the thrown
     * error. Everything outside the tree at `root` stays as it was.
     */
    method SetDeep(root: Slot, path: Path, value: Slot, convert: Tree -> Option<nat>, ghost t: Tree, ghost v: Tree)
      returns (ok: bool)
      requires Valid() && path != [] && Holds(objs, root, t)
      requires Holds(objs, value, v) && Apart(objs, value, v, root, t)
      modifies this
      ensures Valid()
      ensures ok <==> ConfigTree.SetDeep(t, path, v, convert).Some?
      ensures ok ==>
        var u := ConfigTree.SetDeep(t, path, v, convert).value;
        Holds(objs, root, u)
        && Foot(objs, root, u) !! (old(objs).Keys - old(Foot(objs, root, t)) - old(Foot(objs, value, v)))
      ensures SameOn(old(objs), objs, old(objs).Keys - old(Foot(objs, root, t)))
    {
      hide Holds, Foot, Put, PutObject, ToLength, ConfigTree.SetDeep;
      LeafIsPrim(objs, root, t);
      if root.Prim? {
        LeafRefuses(t, path, v, convert);
        return false;
      }
      var cursor := root;
      ghost var u := t;
      ghost var foot, valueFoot := Foot(objs, root, t), Foot(objs, value, v);
      FootIsAllocated(objs, value, v);
      for i := 0 to |path| - 1
        invariant Valid()
        invariant Holds(objs, root, u) && Holds(objs, value, v) && Foot(objs, value, v) == valueFoot
        invariant HasPath(u, path[..i]) && cursor == SlotAt(objs, root, path[..i]) && !SubAt(u, path[..i]).Leaf?
        invariant Pending(u, path[..i], path[i..], v, convert) == ConfigTree.SetDeep(t, path, v, convert)
        invariant old(objs).Keys <= objs.Keys && Foot(objs, root, u) !! (old(objs).Keys - foot)
        invariant SameOn(old(objs), objs, old(objs).Keys - foot)
      {
        var key := path[i];
        assert path[i..] == [key] + path[i + 1..] && path[..i + 1] == path[..i] + [key];
        ghost var was := objs;
        var child, next_ := Step(cursor, key, convert, root, u, path[..i], path[i + 1..], v);
        KeptOutside(old(objs), was, objs, foot, Foot(was, root, u));
        if child.None? { return false; }
        SameOnPart(was, objs, was.Keys - Foot(was, root, u), valueFoot);
        Frame(was, objs, value, v);
        cursor, u := child.value, next_;
      }
      ghost var was := objs;
      assert path[|path| - 1..] == [path[|path| - 1]];
      LastStep(u, path[..|path| - 1], path[|path| - 1], v, convert);
      ok := Assign(cursor, path[|path| - 1], value, convert, root, u, path[..|path| - 1], v);
      KeptOutside(old(objs), was, objs, foot, Foot(was, root, u));
    }

    /** Makes the value and writes it at the path below `out`. */
    method Override(out: Slot, path: Path, v: Tree, convert: Tree -> Option<nat>, ghost t: Tree, ghost first: Objects)
      returns (ok: bool, ghost u: Tree)
      requires Valid() && path != [] && Sound(v) && first.Keys <= objs.Keys && SameOn(first, objs, first.Keys)
      requires NewTree(objs, out, t, first.Keys)
      modifies this
      ensures Valid() && first.Keys <= objs.Keys && SameOn(first, objs, first.Keys)
      ensures ok <==> ConfigTree.SetDeep(t, path, v, convert).Some?
      ensures ok ==> u == ConfigTree.SetDeep(t, path, v, convert).value && NewTree(objs, out, u, first.Keys)
    {
      hide Holds, Foot, Sound, ConfigTree.SetDeep;
      ghost var was := objs;
      var value := Build(v);
      FootIsAllocated(was, out, t);
      SameOnPart(was, objs, was.Keys, Foot(was, out, t));
      Frame(was, objs, out, t);
      SameOnTrans(first, was, objs, first.Keys, was.Keys);
      ghost var grown := objs;
      ok := SetDeep(out, path, value, convert, t, v);
      SameOnTrans(first, grown, objs, first.Keys, grown.Keys - Foot(grown, out, t));
      u := if ok then ConfigTree.SetDeep(t, path, v, convert).value else t;
    }

    /**
     * The overrides over a deep copy of the base: the result is the tree of the overrides on values,
     * and the base, like everything else that was there, is not touched.
     */
    method ApplyEnvOverrides(base: Slot, env: map<string, string>, order: seq<string>, c: Conversions, ghost t: Tree)
      returns (result: Option<Slot>)
      requires Valid() && Holds(objs, base, t)
      requires forall k | k in order :: k in env
      requires forall k | k in env :: Sound(c.coerce(env[k]))
      modifies this
      ensures Valid()
      ensures result.Some? <==> ApplyAll(t, env, order, c).Some?
      ensures result.Some? ==> NewTree(objs, result.value, ApplyAll(t, env, order, c).value, old(objs).Keys)
      ensures SameOn(old(objs), objs, old(objs).Keys)
      ensures Holds(objs, base, t)
    {
      hide Holds, Foot, Sound, ApplyAll;
      var out := StructuredClone(base, t);
      ghost var u := t;
      AllOfNone(t, env, c);
      BaseStays(old(objs), objs, base, t);
      for i := 0 to |order|
        invariant Valid() && old(objs).Keys <= objs.Keys && SameOn(old(objs), objs, old(objs).Keys)
        invariant Holds(objs, base, t)
        invariant NewTree(objs, out, u, old(objs).Keys)
        invariant ApplyAll(t, env, order[..i], c) == Some(u)
      {
        var envKey := order[i];
        assert order[..i + 1] == order[..i] + [envKey];
        ApplySnoc(t, env, order[..i], envKey, c);
        if !(PREFIX <= envKey) || envKey in ["HOPWATCH_CONFIG", "HOPWATCH_GIT_COMMIT"] { continue; }
        var ok;
        ok, u := Override(out, Segments(envKey), c.coerce(env[envKey]), c.toLength, u, old(objs));
        BaseStays(old(objs), objs, base, t);
        if !ok {
          FailureStays(t, env, order, i + 1, c);
          return None;
        }
      }
      assert order[..|order|] == order;
      result := Some(out);
    }
  }
}
