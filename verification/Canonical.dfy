/** The shape of the trie is a function of the routed keys, and its size is linear in their number. */
module Canonical {
  import opened Common
  import opened Stride
  import opened Prefix
  import opened Trie

  // ----- canonicity -----

  /** Same strides, same child slots, same rooted positions; route ids may differ. */
  predicate SameShape(t: Trie, u: Trie)
    decreases t
  {
    && t.prefix == u.prefix
    && t.routeRefs == u.routeRefs
    && t.childRefs == u.childRefs
    && RootsOf(t.entries).Keys == RootsOf(u.entries).Keys
    && |t.children| == |u.children|
    && forall b: nat | b < |t.children| :: SameChild(t.children[b], u.children[b])
  }

  predicate SameChild(x: Option<Trie>, y: Option<Trie>)
    decreases x
  {
    match (x, y)
    case (Some(c), Some(d)) => SameShape(c, d)
    case (None, None) => true
    case _ => false
  }

  /** The two tries route the same keys. */
  ghost predicate SameKeys(t: Trie, u: Trie) {
    forall k :: Find(t, k).Some? <==> Find(u, k).Some?
  }

  /** Every compact trie routes something: a key in the stride itself, or one below some slot other than `avoid`. */
  lemma {:induction false} SomeKey(t: Trie, avoid: nat) returns (k: Key)
    requires WellFormed(t) && Compact(t)
    ensures Find(t, k).Some?
    ensures k.stem == Stem(t.prefix) || (|k.stem| > |Stem(t.prefix)| && k.stem[|Stem(t.prefix)|] != avoid)
    decreases t
  {
    if t.routeRefs != 0 {
      RootAtRoots(t.entries);
      assert RootsOf(t.entries) != map[];
      var idx :| idx in RootsOf(t.entries);
      k := Key(Stem(t.prefix), idx);
    } else {
      var b := OtherSlot(Slots(t.children), avoid);
      var c := ChildAt(t, b).value;
      SlotChild(t, b, c);
      k := SomeKey(c, 0);
      ChildFind(t, b, c, k);
    }
  }

  lemma OtherSlot(s: set<nat>, avoid: nat) returns (b: nat)
    requires |s| > 1
    ensures b in s && b != avoid
  {
    assert |s - {avoid}| > 0;
    b :| b in s - {avoid};
  }

  /** Two compact tries with the same keys that hang in the same slot fix the same octets. */
  lemma SameStem(parent: IpPrefix, b: nat, c: Trie, d: Trie)
    requires GoodChild(parent, b, c) && GoodChild(parent, b, d) && SameKeys(c, d)
    ensures c.prefix == d.prefix
  {
    hide GoodRoutes, Masked, RootAt;
    if |Stem(c.prefix)| <= |Stem(d.prefix)| { StemNotBelow(c, d); }
    if |Stem(d.prefix)| <= |Stem(c.prefix)| { StemNotBelow(d, c); }
    StemDetermines(c.prefix, d.prefix);
  }

  lemma StemNotBelow(c: Trie, d: Trie)
    requires WellFormed(c) && Compact(c) && WellFormed(d) && SameKeys(c, d)
    requires |Stem(c.prefix)| <= |Stem(d.prefix)|
    ensures Stem(c.prefix) == Stem(d.prefix)
  {
    hide GoodRoutes, IsStem, RootAt, Compact, GoodChild;
    var depth := |Stem(c.prefix)|;
    var avoid := if depth < |Stem(d.prefix)| then Stem(d.prefix)[depth] else 0;
    var k := SomeKey(c, avoid);
    FindInside(c, k);
    FindInside(d, k);
    assert Stem(c.prefix) == k.stem[..depth] == Stem(d.prefix)[..depth];
  }

  /** Keys through a slot are routed alike in the two children that fill it. */
  lemma ChildKeys(t: Trie, u: Trie, b: byte)
    requires WellFormed(t) && WellFormed(u) && t.prefix == u.prefix && SameKeys(t, u)
    ensures ChildAt(t, b).Some? <==> ChildAt(u, b).Some?
    ensures ChildAt(t, b).Some? ==> SameKeys(ChildAt(t, b).value, ChildAt(u, b).value)
  {
    hide GoodRoutes, IsStem, RootAt;
    if ChildAt(t, b).Some? { FilledToo(t, u, b); }
    if ChildAt(u, b).Some? { FilledToo(u, t, b); }
    if ChildAt(t, b).Some? {
      var c, d := ChildAt(t, b).value, ChildAt(u, b).value;
      forall k ensures Find(c, k).Some? <==> Find(d, k).Some? {
        ChildFind(t, b, c, k);
        ChildFind(u, b, d, k);
      }
    }
  }

  lemma FilledToo(t: Trie, u: Trie, b: byte)
    requires WellFormed(t) && WellFormed(u) && t.prefix == u.prefix && SameKeys(t, u) && ChildAt(t, b).Some?
    ensures ChildAt(u, b).Some?
  {
    hide GoodRoutes, IsStem, RootAt;
    var c := ChildAt(t, b).value;
    SlotChild(t, b, c);
    var k := SomeKey(c, 0);
    ChildFind(t, b, c, k);
    assert Find(u, k).Some?;
  }

  lemma SameRoots(t: Trie, u: Trie)
    requires WellFormed(t) && WellFormed(u) && t.prefix == u.prefix && SameKeys(t, u)
    ensures RootsOf(t.entries).Keys == RootsOf(u.entries).Keys && t.routeRefs == u.routeRefs
  {
    RootAtRoots(t.entries);
    RootAtRoots(u.entries);
    forall idx: nat ensures idx in RootsOf(t.entries) <==> idx in RootsOf(u.entries) {
      var k := Key(Stem(t.prefix), idx);
      assert Find(t, k).Some? <==> Find(u, k).Some?;
    }
    assert RootsOf(t.entries).Keys == RootsOf(u.entries).Keys;
  }

  /** Canonicity: well-formed tries with the same keys have the same shape. */
  lemma {:induction false} KeysDetermineShape(t: Trie, u: Trie)
    requires WellFormed(t) && WellFormed(u) && t.prefix == u.prefix && SameKeys(t, u)
    ensures SameShape(t, u)
    decreases t
  {
    hide GoodRoutes, IsStem, RootAt, Find;
    SameRoots(t, u);
    forall b: nat | b < CHILD_COUNT
      ensures SameChild(t.children[b], u.children[b])
    {
      ChildKeys(t, u, b);
      assert ChildAt(t, b) == t.children[b] && ChildAt(u, b) == u.children[b];
      if ChildAt(t, b).Some? {
        var c, d := ChildAt(t, b).value, ChildAt(u, b).value;
        SlotChild(t, b, c);
        SlotChild(u, b, d);
        SameStem(t.prefix, b, c, d);
        KeysDetermineShape(c, d);
      }
    }
    assert Slots(t.children) == Slots(u.children) by {
      forall b: nat ensures b in Slots(t.children) <==> b in Slots(u.children) {
        if b < CHILD_COUNT { assert SameChild(t.children[b], u.children[b]); }
      }
    }
  }

  /** Tries of the same shape that agree on every route id are equal. */
  lemma {:induction false} ShapeAndRoutesDetermine(t: Trie, u: Trie)
    requires WellFormed(t) && WellFormed(u) && SameShape(t, u)
    requires forall k :: Find(t, k) == Find(u, k)
    ensures t == u
    decreases t
  {
    hide IsStem;
    RootAtRoots(t.entries);
    RootAtRoots(u.entries);
    forall idx: nat | idx in RootsOf(t.entries) ensures RootsOf(t.entries)[idx] == RootsOf(u.entries)[idx] {
      assert Find(t, Key(Stem(t.prefix), idx)) == Find(u, Key(Stem(t.prefix), idx));
    }
    assert RootsOf(t.entries) == RootsOf(u.entries);
    CachesDetermine(t.entries, u.entries, RootsOf(t.entries));
    forall b: nat | b < CHILD_COUNT
      ensures t.children[b] == u.children[b]
    {
      EqualChild(t, u, b);
    }
    assert t.children == u.children;
  }

  lemma {:induction false} EqualChild(t: Trie, u: Trie, b: byte)
    requires WellFormed(t) && WellFormed(u) && SameShape(t, u)
    requires forall k :: Find(t, k) == Find(u, k)
    ensures t.children[b] == u.children[b]
    decreases t, 0
  {
    hide GoodRoutes, IsStem, RootAt, GoodChild;
    assert ChildAt(t, b) == t.children[b] && ChildAt(u, b) == u.children[b];
    assert SameChild(t.children[b], u.children[b]);
    if ChildAt(t, b).Some? {
      var c, d := ChildAt(t, b).value, ChildAt(u, b).value;
      SlotChild(t, b, c);
      SlotChild(u, b, d);
      forall k ensures Find(c, k) == Find(d, k) {
        ChildFind(t, b, c, k);
        ChildFind(u, b, d, k);
      }
      ShapeAndRoutesDetermine(c, d);
    }
  }

  lemma CachesDetermine(e: Entries, f: Entries, roots: Roots)
    requires Caches(e, roots) && Caches(f, roots)
    ensures e == f
  {
    forall i | 0 <= i < ENTRY_COUNT ensures e[i] == f[i] {
      if i > 0 { assert e[i] == Allotted(roots, i) && f[i] == Allotted(roots, i); }
    }
  }

  /** A well-formed trie is the only one with its routes. */
  lemma RoutesDetermineTrie(t: Trie, u: Trie)
    requires WellFormed(t) && WellFormed(u) && t.prefix == u.prefix
    requires forall k :: Find(t, k) == Find(u, k)
    ensures t == u
  {
    KeysDetermineShape(t, u);
    ShapeAndRoutesDetermine(t, u);
  }

  /** Deleting a freshly inserted prefix gives back the very trie it was inserted into. */
  lemma DeleteUndoesInsert(t: Trie, p: IpPrefix, r: RouteId)
    requires WellFormed(t) && t.prefix.bits == 0
    requires ValidPrefix(p) && IsMasked(p) && p.addr.v6 == t.prefix.addr.v6
    requires Find(t, KeyOf(p)) == None && forall k :: Find(t, k) != Some(r)
    ensures WellFormed(InsertInto(t, p, r).0) && InsertInto(t, p, r).0.prefix == t.prefix
    ensures DeleteFrom(InsertInto(t, p, r).0, p) == (t, Some(r))
  {
    hide WellFormed, Find, InsertInto, DeleteFrom, KeyOf, IsMasked;
    InsertIntoCorrect(t, p, r);
    var t' := InsertInto(t, p, r).0;
    DeleteFromCorrect(t', p);
    RoutesDetermineTrie(DeleteFrom(t', p).0, t);
  }

  // ----- size -----

  /** The strides of a trie: itself and those of its children. */
  function NumStrides(t: Trie): nat
    decreases t, |t.children| + 1
  {
    1 + NumStridesFrom(t, 0)
  }

  function NumStridesFrom(t: Trie, from: nat): nat
    decreases t, if from <= |t.children| then |t.children| - from else 0
  {
    if from >= |t.children| then 0
    else (if t.children[from].Some? then NumStrides(t.children[from].value) else 0) + NumStridesFrom(t, from + 1)
  }

  /** The routed keys, stride by stride. */
  function KeySet(t: Trie): set<Key>
    decreases t, |t.children| + 1
  {
    LocalKeys(Stem(t.prefix), RootsOf(t.entries).Keys) + KeysFrom(t, 0)
  }

  function LocalKeys(stem: Bytes, positions: set<nat>): set<Key> {
    set idx | idx in positions :: Key(stem, idx)
  }

  function KeysFrom(t: Trie, from: nat): set<Key>
    decreases t, if from <= |t.children| then |t.children| - from else 0
  {
    if from >= |t.children| then {}
    else (if t.children[from].Some? then KeySet(t.children[from].value) else {}) + KeysFrom(t, from + 1)
  }

  lemma {:induction false} LocalKeysCount(stem: Bytes, positions: set<nat>)
    ensures |LocalKeys(stem, positions)| == |positions|
  {
    if positions != {} {
      var x :| x in positions;
      LocalKeysCount(stem, positions - {x});
      assert LocalKeys(stem, positions) == LocalKeys(stem, positions - {x}) + {Key(stem, x)};
    }
  }

  lemma {:induction false} KeySetIsFind(t: Trie, k: Key)
    requires WellFormed(t)
    ensures k in KeySet(t) <==> Find(t, k).Some?
    decreases t, CHILD_COUNT + 1
  {
    hide IsStem, GoodRoutes, RootAt, GoodChild;
    RootAtRoots(t.entries);
    KeysFromIsFind(t, 0, k);
  }

  lemma {:induction false} KeysFromIsFind(t: Trie, from: nat, k: Key)
    requires WellFormed(t) && from <= CHILD_COUNT
    ensures k in KeysFrom(t, from) <==>
            |k.stem| > |Stem(t.prefix)| && k.stem[|Stem(t.prefix)|] >= from && Find(t, k).Some?
    decreases t, CHILD_COUNT - from
  {
    hide IsStem, GoodRoutes, RootAt, GoodChild;
    if from < CHILD_COUNT {
      KeysFromIsFind(t, from + 1, k);
      assert ChildAt(t, from) == t.children[from];
      if t.children[from].Some? {
        var c := t.children[from].value;
        SlotChild(t, from, c);
        KeySetIsFind(c, k);
        ChildFind(t, from, c, k);
      }
    }
  }

  /** Filled slots from a slot onwards. */
  function SlotsFrom(t: Trie, from: nat): set<nat> {
    set b: nat | from <= b < |t.children| && t.children[b].Some?
  }

  /** Below the root, strides number less than twice the keys. */
  lemma {:induction false} StridesBelow(t: Trie)
    requires WellFormed(t) && Compact(t)
    ensures NumStrides(t) + 1 <= 2 * |KeySet(t)|
    decreases t, CHILD_COUNT + 1
  {
    StridesFrom(t, 0);
    KeySetCount(t);
    assert SlotsFrom(t, 0) == Slots(t.children);
  }

  lemma KeySetCount(t: Trie)
    requires WellFormed(t)
    ensures |KeySet(t)| == t.routeRefs + |KeysFrom(t, 0)|
  {
    var roots := RootsOf(t.entries);
    LocalKeysCount(Stem(t.prefix), roots.Keys);
    forall k | k in KeysFrom(t, 0) ensures k !in LocalKeys(Stem(t.prefix), roots.Keys) {
      KeysFromIsFind(t, 0, k);
    }
    assert LocalKeys(Stem(t.prefix), roots.Keys) !! KeysFrom(t, 0);
  }

  lemma {:induction false} StridesFrom(t: Trie, from: nat)
    requires WellFormed(t) && from <= CHILD_COUNT
    ensures NumStridesFrom(t, from) + |SlotsFrom(t, from)| <= 2 * |KeysFrom(t, from)|
    decreases t, CHILD_COUNT - from
  {
    hide GoodRoutes, IsStem, NumStrides, NumStridesFrom, KeySet, KeysFrom, SlotsFrom, Compact;
    if from == CHILD_COUNT {
      PastTheSlots(t);
    } else {
      StridesFrom(t, from + 1);
      StrideSlot(t, from);
      assert ChildAt(t, from) == t.children[from];
      if t.children[from].Some? {
        var c := t.children[from].value;
        SlotChild(t, from, c);
        StridesBelow(c);
        KeysApart(t, from, c);
      }
    }
  }

  /** Strides, keys and filled slots from one slot on, in terms of those after it. */
  lemma StrideSlot(t: Trie, from: nat)
    requires from < |t.children|
    ensures var c := t.children[from];
            && NumStridesFrom(t, from) == (if c.Some? then NumStrides(c.value) else 0) + NumStridesFrom(t, from + 1)
            && KeysFrom(t, from) == (if c.Some? then KeySet(c.value) else {}) + KeysFrom(t, from + 1)
            && |SlotsFrom(t, from)| == (if c.Some? then 1 else 0) + |SlotsFrom(t, from + 1)|
  {
    hide NumStrides, KeySet;
    assert SlotsFrom(t, from) == SlotsFrom(t, from + 1) + if t.children[from].Some? then {from} else {};
  }

  lemma PastTheSlots(t: Trie)
    ensures NumStridesFrom(t, |t.children|) == 0 && KeysFrom(t, |t.children|) == {} && |SlotsFrom(t, |t.children|)| == 0
  {
    assert SlotsFrom(t, |t.children|) == {};
  }

  lemma KeysApart(t: Trie, b: byte, c: Trie)
    requires WellFormed(t) && ChildAt(t, b) == Some(c)
    ensures KeySet(c) !! KeysFrom(t, b + 1)
  {
    SlotChild(t, b, c);
    forall k | k in KeySet(c) ensures k !in KeysFrom(t, b + 1) {
      KeySetIsFind(c, k);
      KeyTakesSlot(t.prefix, b, c, k);
      KeysFromIsFind(t, b + 1, k);
    }
  }

  /** A whole trie has at most one stride more than twice its keys. */
  lemma StridesBounded(t: Trie)
    requires WellFormed(t)
    ensures NumStrides(t) <= 1 + 2 * |KeySet(t)|
  {
    StridesFrom(t, 0);
    KeySetCount(t);
  }

  // ----- which strides there are -----

  /** There is a stride for these octets: the walk down along them ends at one. */
  predicate HasStride(t: Trie, stem: Bytes)
    decreases t
  {
    var own := Stem(t.prefix);
    own == stem || (|own| < |stem| && ChildAt(t, stem[|own|]).Some? && HasStride(ChildAt(t, stem[|own|]).value, stem))
  }

  /** Two keys agree on exactly these octets and then part. */
  predicate Forks(stem: Bytes, a: Key, b: Key) {
    stem < a.stem && stem < b.stem && a.stem[|stem|] != b.stem[|stem|]
  }

  /** A key of these octets is routed, or two routed keys part after them. */
  ghost predicate Needed(t: Trie, stem: Bytes) {
    || (exists k :: Find(t, k).Some? && k.stem == stem)
    || (exists a, b :: Find(t, a).Some? && Find(t, b).Some? && Forks(stem, a, b))
  }

  lemma CompactIsNeeded(c: Trie)
    requires WellFormed(c) && Compact(c)
    ensures Needed(c, Stem(c.prefix))
  {
    hide WellFormed, Find;
    var stem := Stem(c.prefix);
    var a := SomeKey(c, 0);
    if a.stem != stem {
      var b := SomeKey(c, a.stem[|stem|]);
      FindInside(c, a);
      FindInside(c, b);
      if b.stem != stem { assert Forks(stem, a, b); }
    }
  }

  lemma NeededAbove(t: Trie, b: byte, c: Trie, stem: Bytes)
    requires WellFormed(t) && ChildAt(t, b) == Some(c) && Needed(c, stem)
    ensures Needed(t, stem)
  {
    hide WellFormed, Find;
    forall k ensures Find(c, k).Some? ==> Find(t, k).Some? { ChildFind(t, b, c, k); }
  }

  lemma {:induction false} StrideIsNeeded(t: Trie, stem: Bytes)
    requires WellFormed(t) && HasStride(t, stem)
    ensures stem == Stem(t.prefix) || Needed(t, stem)
    ensures Stem(t.prefix) <= stem
    decreases t
  {
    hide WellFormed, Find, Needed, Stem;
    var own := Stem(t.prefix);
    if own != stem {
      var b := stem[|own|];
      var c := ChildAt(t, b).value;
      SlotChild(t, b, c);
      StrideIsNeeded(c, stem);
      assert Compact(c) && own <= Stem(c.prefix) by { ChildExtends(t.prefix, b, c); }
      if stem == Stem(c.prefix) { CompactIsNeeded(c); }
      NeededAbove(t, b, c, stem);
    }
  }

  lemma ChildExtends(parent: IpPrefix, b: nat, c: Trie)
    requires GoodChild(parent, b, c)
    ensures Compact(c) && Stem(parent) < Stem(c.prefix) && Stem(c.prefix)[|Stem(parent)|] == b
  {
  }

  /** Keys that lie below these octets, through the child on the way. */
  lemma KeyBelow(t: Trie, stem: Bytes, k: Key)
    requires WellFormed(t) && Stem(t.prefix) < stem <= k.stem && Find(t, k).Some?
    ensures var b := stem[|Stem(t.prefix)|];
            ChildAt(t, b).Some? && Find(ChildAt(t, b).value, k).Some? && Stem(ChildAt(t, b).value.prefix) <= k.stem
  {
    hide WellFormed;
    var b := stem[|Stem(t.prefix)|];
    assert k.stem[|Stem(t.prefix)|] == b;
    var c := ChildAt(t, b).value;
    SlotChild(t, b, c);
    FindInside(c, k);
  }

  lemma {:induction false} KeyHasStride(t: Trie, k: Key)
    requires WellFormed(t) && Find(t, k).Some?
    ensures HasStride(t, k.stem)
    decreases t
  {
    hide WellFormed;
    FindInside(t, k);
    if k.stem != Stem(t.prefix) {
      var b := k.stem[|Stem(t.prefix)|];
      var c := ChildAt(t, b).value;
      SlotChild(t, b, c);
      KeyHasStride(c, k);
    }
  }

  lemma {:induction false} ForkHasStride(t: Trie, stem: Bytes, a: Key, b: Key)
    requires WellFormed(t) && Find(t, a).Some? && Find(t, b).Some? && Forks(stem, a, b) && Stem(t.prefix) <= stem
    ensures HasStride(t, stem)
    decreases t
  {
    hide WellFormed, Find;
    if stem != Stem(t.prefix) {
      KeyBelow(t, stem, a);
      KeyBelow(t, stem, b);
      var x := stem[|Stem(t.prefix)|];
      var c := ChildAt(t, x).value;
      SlotChild(t, x, c);
      CommonFront(stem, a.stem, b.stem, Stem(c.prefix));
      ForkHasStride(c, stem, a, b);
    }
  }

  /** What two texts that part after `stem` have in front in common is no longer than `stem`. */
  lemma CommonFront(stem: Bytes, a: Bytes, b: Bytes, front: Bytes)
    requires stem < a && stem < b && a[|stem|] != b[|stem|] && front <= a && front <= b
    ensures front <= stem
  {
    assert front == a[..|front|] && stem == a[..|stem|];
  }

  /**
    Exactly which strides a well-formed trie has besides its root: one for the octets of every routed key, and
    one wherever two routed keys part. There is no other way to lay them out.
   */
  lemma StridesExactly(t: Trie, stem: Bytes)
    requires WellFormed(t)
    ensures HasStride(t, stem) <==>
            stem == Stem(t.prefix) || (Stem(t.prefix) <= stem && Needed(t, stem))
  {
    hide WellFormed, Find, Stem;
    if HasStride(t, stem) { StrideIsNeeded(t, stem); }
    if Stem(t.prefix) <= stem && Needed(t, stem) {
      if k :| Find(t, k).Some? && k.stem == stem {
        KeyHasStride(t, k);
      } else {
        var a, b :| Find(t, a).Some? && Find(t, b).Some? && Forks(stem, a, b);
        ForkHasStride(t, stem, a, b);
      }
    }
    if stem == Stem(t.prefix) { OwnStride(t); }
  }

  lemma OwnStride(t: Trie)
    ensures HasStride(t, Stem(t.prefix))
  {
  }

  /** The octets of all strides. */
  function StemSet(t: Trie): set<Bytes>
    decreases t, |t.children| + 1
  {
    {Stem(t.prefix)} + StemsFrom(t, 0)
  }

  function StemsFrom(t: Trie, from: nat): set<Bytes>
    decreases t, if from <= |t.children| then |t.children| - from else 0
  {
    if from >= |t.children| then {}
    else (if t.children[from].Some? then StemSet(t.children[from].value) else {}) + StemsFrom(t, from + 1)
  }

  lemma {:induction false} StemSetIsWalk(t: Trie, stem: Bytes)
    requires WellFormed(t)
    ensures stem in StemSet(t) <==> HasStride(t, stem)
    decreases t, CHILD_COUNT + 1
  {
    hide IsStem, GoodRoutes, GoodChild, Stem;
    StemsFromIsWalk(t, 0, stem);
  }

  lemma {:induction false} StemsFromIsWalk(t: Trie, from: nat, stem: Bytes)
    requires WellFormed(t) && from <= CHILD_COUNT
    ensures stem in StemsFrom(t, from) <==>
            |stem| > |Stem(t.prefix)| && stem[|Stem(t.prefix)|] >= from && HasStride(t, stem)
    decreases t, CHILD_COUNT - from
  {
    hide IsStem, GoodRoutes, GoodChild, Stem;
    if from < CHILD_COUNT {
      StemsFromIsWalk(t, from + 1, stem);
      assert ChildAt(t, from) == t.children[from];
      if t.children[from].Some? {
        var c := t.children[from].value;
        SlotChild(t, from, c);
        StemSetIsWalk(c, stem);
        if HasStride(c, stem) {
          StrideIsNeeded(c, stem);
          ChildExtends(t.prefix, from, c);
        }
      }
    }
  }

  /** The count of strides is the count of their octets: no two strides stand for the same. */
  lemma {:induction false} NumStridesCounts(t: Trie)
    requires WellFormed(t)
    ensures NumStrides(t) == |StemSet(t)|
    decreases t, CHILD_COUNT + 1
  {
    hide IsStem, GoodRoutes, GoodChild, Stem;
    StridesFromCount(t, 0);
    StemsFromIsWalk(t, 0, Stem(t.prefix));
  }

  lemma {:induction false} StridesFromCount(t: Trie, from: nat)
    requires WellFormed(t) && from <= CHILD_COUNT
    ensures NumStridesFrom(t, from) == |StemsFrom(t, from)|
    decreases t, CHILD_COUNT - from
  {
    hide IsStem, GoodRoutes, GoodChild, Stem, NumStrides, StemSet, HasStride;
    if from < CHILD_COUNT {
      StridesFromCount(t, from + 1);
      assert ChildAt(t, from) == t.children[from];
      if t.children[from].Some? {
        var c := t.children[from].value;
        SlotChild(t, from, c);
        NumStridesCounts(c);
        StemsApart(t, from, c);
      }
    }
  }

  lemma StemsApart(t: Trie, b: byte, c: Trie)
    requires WellFormed(t) && ChildAt(t, b) == Some(c)
    ensures StemSet(c) !! StemsFrom(t, b + 1)
  {
    hide WellFormed, Stem, HasStride, StemSet, StemsFrom;
    SlotChild(t, b, c);
    forall stem | stem in StemSet(c) ensures stem !in StemsFrom(t, b + 1) {
      StemSetIsWalk(c, stem);
      StrideIsNeeded(c, stem);
      ChildExtends(t.prefix, b, c);
      StemsFromIsWalk(t, b + 1, stem);
    }
  }
}
