/**
  The path-compressed trie of strides, as a value. Every operation of the routing table on its
  stride tree is given here as a function, together with what it does to the set of routed keys.
 */
module Trie {
  import opened Common
  import opened Stride
  import opened Prefix

  const CHILD_COUNT := 256

  datatype Trie = Trie(
    prefix: IpPrefix,
    entries: Entries,
    children: seq<Option<Trie>>,
    routeRefs: nat,
    childRefs: nat)

  /** The child in a slot, if any; it is always structurally smaller. */
  function ChildAt(t: Trie, b: nat): (r: Option<Trie>)
    ensures r.Some? ==> r.value < t
  {
    if b < |t.children| then t.children[b] else None
  }

  /** The occupied child slots. */
  function Slots(children: seq<Option<Trie>>): set<nat> {
    set b: nat | b < |children| && children[b].Some?
  }

  // ----- well-formedness -----

  /** A stride other than the root earns its place: it holds a route or branches. */
  predicate Compact(t: Trie) {
    t.routeRefs != 0 || t.childRefs > 1
  }

  /** The routes of one stride: cached consistently, counted, and position 1 used only at the root. */
  ghost predicate GoodRoutes(p: IpPrefix, e: Entries, routeRefs: nat) {
    && Caches(e, RootsOf(e))
    && routeRefs == |RootsOf(e)|
    && (1 in RootsOf(e) ==> p.bits == 0)
  }

  ghost predicate WellFormed(t: Trie)
    decreases t, 0
  {
    && IsStem(t.prefix)
    && GoodRoutes(t.prefix, t.entries, t.routeRefs)
    && |t.children| == CHILD_COUNT
    && t.childRefs == |Slots(t.children)|
    && forall b: nat | b < CHILD_COUNT && ChildAt(t, b).Some? :: GoodChild(t.prefix, b, ChildAt(t, b).value)
  }

  /** A child lies strictly inside its parent, in the slot named by its next octet. */
  ghost predicate GoodChild(parent: IpPrefix, b: nat, c: Trie)
    decreases c, 1
  {
    && WellFormed(c)
    && Compact(c)
    && c.prefix.addr.v6 == parent.addr.v6
    && Within(Stem(parent), b, Stem(c.prefix))
  }

  predicate Within(stem: Bytes, b: nat, below: Bytes) {
    |stem| < |below| && stem == below[..|stem|] && below[|stem|] == b
  }

  // ----- the routed keys -----

  function RootAt(e: Entries, idx: nat): Option<RouteId> {
    if 1 <= idx < ENTRY_COUNT && Rooted(e, idx) then e[idx] else None
  }

  /** The route installed under exactly this key. */
  function Find(t: Trie, k: Key): Option<RouteId> {
    var stem := Stem(t.prefix);
    if |k.stem| <= |stem| then
      if k.stem == stem then RootAt(t.entries, k.idx) else None
    else
      var c := ChildAt(t, k.stem[|stem|]);
      if c.Some? then Find(c.value, k) else None
  }

  lemma {:induction false} FindInside(t: Trie, k: Key)
    requires WellFormed(t) && Find(t, k).Some?
    ensures Stem(t.prefix) <= k.stem
    ensures ValidKey(k, Width(t.prefix.addr.v6))
  {
    var stem := Stem(t.prefix);
    if |k.stem| > |stem| {
      var b := k.stem[|stem|];
      var c := ChildAt(t, b).value;
      assert GoodChild(t.prefix, b, c);
      FindInside(c, k);
      assert stem == Stem(c.prefix)[..|stem|] == k.stem[..|stem|];
    }
  }

  // ----- operations on one stride -----

  function NoChildren(): (r: seq<Option<Trie>>)
    ensures |r| == CHILD_COUNT && Slots(r) == {}
  {
    seq(CHILD_COUNT, _ => None)
  }

  function NewStride(p: IpPrefix): Trie {
    Trie(p, NoEntries(), NoChildren(), 0, 0)
  }

  function StrideInsert(t: Trie, addr: byte, len: nat, r: RouteId): (Trie, Option<RouteId>)
    requires len <= 8
  {
    var i := PrefixIndex(addr, len);
    var previous := if Rooted(t.entries, i) then t.entries[i] else None;
    (t.(entries := InsertEntries(t.entries, i, r),
        routeRefs := if previous.None? then t.routeRefs + 1 else t.routeRefs),
     previous)
  }

  function StrideDelete(t: Trie, addr: byte, len: nat): (Trie, Option<RouteId>)
    requires len <= 8
  {
    var i := PrefixIndex(addr, len);
    if !Rooted(t.entries, i) then (t, None)
    else (t.(entries := DeleteEntries(t.entries, i),
             routeRefs := if t.routeRefs > 0 then t.routeRefs - 1 else 0),
          t.entries[i])
  }

  function SetChild(t: Trie, b: byte, c: Trie): Trie
    requires |t.children| == CHILD_COUNT
  {
    t.(children := t.children[b := Some(c)],
       childRefs := if t.children[b].None? then t.childRefs + 1 else t.childRefs)
  }

  function DeleteChild(t: Trie, b: byte): Trie
    requires |t.children| == CHILD_COUNT
  {
    t.(children := t.children[b := None],
       childRefs := if t.children[b].Some? && t.childRefs > 0 then t.childRefs - 1 else t.childRefs)
  }

  /** The first occupied slot at or after `b`. */
  function FirstSlot(children: seq<Option<Trie>>, b: nat): (r: nat)
    requires b <= |children|
    ensures b <= r <= |children|
    ensures forall i | b <= i < r :: children[i].None?
    ensures r < |children| ==> children[r].Some?
    decreases |children| - b
  {
    if b == |children| || children[b].Some? then b else FirstSlot(children, b + 1)
  }

  lemma NewStrideEmpty(p: IpPrefix)
    requires IsStem(p)
    ensures WellFormed(NewStride(p))
    ensures forall k :: Find(NewStride(p), k) == None
  {
    var t := NewStride(p);
    assert Caches(t.entries, map[]);
    CachesRoots(t.entries, map[]);
  }

  lemma RootAtRoots(e: Entries)
    ensures forall idx :: RootAt(e, idx) == if idx in RootsOf(e) then Some(RootsOf(e)[idx]) else None
  {
  }

  lemma InsertRoutes(p: IpPrefix, e: Entries, routeRefs: nat, i: nat, r: RouteId)
    requires GoodRoutes(p, e, routeRefs) && 1 <= i < ENTRY_COUNT && (i == 1 ==> p.bits == 0)
    requires forall idx :: RootAt(e, idx) != Some(r)
    ensures GoodRoutes(p, InsertEntries(e, i, r), if RootAt(e, i).None? then routeRefs + 1 else routeRefs)
    ensures forall idx :: RootAt(InsertEntries(e, i, r), idx) == if idx == i then Some(r) else RootAt(e, idx)
    ensures RootAt(e, i).None? || routeRefs > 0
  {
    var roots := RootsOf(e);
    RootAtRoots(e);
    RootAtRoots(InsertEntries(e, i, r));
    forall j | j in roots ensures roots[j] != r {
      assert RootAt(e, j) == Some(roots[j]);
    }
    InsertCaches(e, roots, i, r);
    CachesRoots(InsertEntries(e, i, r), roots[i := r]);
    assert roots[i := r].Keys == roots.Keys + {i};
    if routeRefs == 0 { assert roots == map[]; }
  }

  lemma DeleteRoutes(p: IpPrefix, e: Entries, routeRefs: nat, i: nat)
    requires GoodRoutes(p, e, routeRefs) && RootAt(e, i).Some?
    ensures routeRefs > 0 && GoodRoutes(p, DeleteEntries(e, i), routeRefs - 1)
    ensures forall idx :: RootAt(DeleteEntries(e, i), idx) == if idx == i then None else RootAt(e, idx)
  {
    var roots := RootsOf(e);
    RootAtRoots(e);
    RootAtRoots(DeleteEntries(e, i));
    DeleteCaches(e, roots, i);
    CachesRoots(DeleteEntries(e, i), roots - {i});
    assert (roots - {i}).Keys == roots.Keys - {i};
  }

  /** Exchanging the routes of one stride leaves every other key alone. */
  lemma ReplaceRoutes(t: Trie, e: Entries, routeRefs: nat)
    requires WellFormed(t) && GoodRoutes(t.prefix, e, routeRefs)
    ensures var t' := t.(entries := e, routeRefs := routeRefs);
            && WellFormed(t')
            && forall k :: Find(t', k) == if k.stem == Stem(t.prefix) then RootAt(e, k.idx) else Find(t, k)
  {
    hide GoodRoutes, IsStem, Compact, RootAt;
    var t' := t.(entries := e, routeRefs := routeRefs);
    assert forall b: nat :: ChildAt(t', b) == ChildAt(t, b);
  }

  /** Insertion into one stride changes exactly the key of that position. */
  lemma StrideInsertCorrect(t: Trie, addr: byte, len: nat, r: RouteId)
    requires WellFormed(t) && len <= 8 && (len == 0 ==> t.prefix.bits == 0)
    requires forall k :: Find(t, k) != Some(r)
    ensures var (t', previous) := StrideInsert(t, addr, len, r);
            var key := Key(Stem(t.prefix), PrefixIndex(addr, len));
            && WellFormed(t') && Compact(t') && t'.prefix == t.prefix && t'.childRefs == t.childRefs
            && previous == Find(t, key)
            && forall k :: Find(t', k) == if k == key then Some(r) else Find(t, k)
  {
    hide GoodRoutes, IsStem, GoodChild;
    var i := PrefixIndex(addr, len);
    forall idx ensures RootAt(t.entries, idx) != Some(r) {
      assert Find(t, Key(Stem(t.prefix), idx)) == RootAt(t.entries, idx);
    }
    InsertRoutes(t.prefix, t.entries, t.routeRefs, i, r);
    ReplaceRoutes(t, InsertEntries(t.entries, i, r), StrideInsert(t, addr, len, r).0.routeRefs);
  }

  /** Deletion from one stride removes exactly the key of that position. */
  lemma StrideDeleteCorrect(t: Trie, addr: byte, len: nat)
    requires WellFormed(t) && len <= 8
    ensures var (t', removed) := StrideDelete(t, addr, len);
            var key := Key(Stem(t.prefix), PrefixIndex(addr, len));
            && WellFormed(t') && t'.prefix == t.prefix && t'.childRefs == t.childRefs
            && removed == Find(t, key)
            && (removed == None ==> t' == t)
            && forall k :: Find(t', k) == if k == key then None else Find(t, k)
  {
    hide GoodRoutes, IsStem, GoodChild;
    var i := PrefixIndex(addr, len);
    if RootAt(t.entries, i).Some? {
      DeleteRoutes(t.prefix, t.entries, t.routeRefs, i);
      ReplaceRoutes(t, DeleteEntries(t.entries, i), t.routeRefs - 1);
    }
  }

  /** The keys that descend through slot `b`. */
  predicate Through(t: Trie, b: byte, k: Key) {
    var depth := |Stem(t.prefix)|;
    depth < |k.stem| && k.stem[depth] == b
  }

  /** Putting a child in a slot changes exactly the keys that descend through it. */
  lemma SetChildCorrect(t: Trie, b: byte, c: Trie)
    requires WellFormed(t) && GoodChild(t.prefix, b, c)
    ensures var t' := SetChild(t, b, c);
            && WellFormed(t') && t'.prefix == t.prefix && t'.routeRefs == t.routeRefs && t'.childRefs >= t.childRefs
            && forall k :: Find(t', k) == if Through(t, b, k) then Find(c, k) else Find(t, k)
  {
    hide GoodRoutes, IsStem, Compact, RootAt;
    var t' := SetChild(t, b, c);
    assert Slots(t'.children) == Slots(t.children) + {b};
    forall i: nat | i < CHILD_COUNT
      ensures ChildAt(t', i) == if i == b then Some(c) else ChildAt(t, i)
    {
    }
    assert WellFormed(t');
  }

  lemma DeleteChildCorrect(t: Trie, b: byte)
    requires WellFormed(t)
    ensures var t' := DeleteChild(t, b);
            && WellFormed(t') && t'.prefix == t.prefix && t'.routeRefs == t.routeRefs
            && forall k :: Find(t', k) == if Through(t, b, k) then None else Find(t, k)
  {
    hide GoodRoutes, IsStem, Compact, RootAt;
    var t' := DeleteChild(t, b);
    assert Slots(t'.children) == Slots(t.children) - {b};
    assert b in Slots(t.children) <==> t.children[b].Some?;
    forall i: nat | i < CHILD_COUNT
      ensures ChildAt(t', i) == if i == b then None else ChildAt(t, i)
    {
    }
    assert WellFormed(t');
  }

  // ----- insertion -----

  /** A fresh stride holding just this prefix. */
  function Leaf(p: IpPrefix, r: RouteId): Trie
    requires ValidPrefix(p)
  {
    StrideInsert(NewStride(AtByteBoundary(p, FinalByte(p) * 8)), p.addr.octets[FinalByte(p)], FinalBits(p), r).0
  }

  /** The stride put between a parent and the child it replaces, holding both the child and the new prefix. */
  function Split(c: Trie, p: IpPrefix, r: RouteId): Trie
    requires ValidPrefix(c.prefix) && ValidPrefix(p) && c.prefix.addr.v6 == p.addr.v6
    requires c.prefix.bits != 0 && p.bits != 0
  {
    var (mid, x, y) := ComputeSplit(c.prefix, p);
    var withOld := SetChild(NewStride(mid), x, c);
    if p.bits - mid.bits <= 8 then
      StrideInsert(withOld, p.addr.octets[FinalByte(p)], FinalBits(p), r).0
    else
      SetChild(withOld, y, Leaf(p, r))
  }

  /** `p` belongs strictly below the stride `t`. */
  ghost predicate Below(t: Trie, p: IpPrefix) {
    && WellFormed(t)
    && ValidPrefix(p) && IsMasked(p) && p.addr.v6 == t.prefix.addr.v6
    && t.prefix.bits < p.bits
    && Stem(t.prefix) <= p.addr.octets
  }

  lemma BelowChild(t: Trie, p: IpPrefix, b: byte, c: Trie)
    requires Below(t, p) && ChildAt(t, b) == Some(c)
    ensures WellFormed(c) && ValidPrefix(c.prefix) && c.prefix.addr.v6 == p.addr.v6 && c.prefix.bits > t.prefix.bits
    ensures StrictlyContains(c.prefix, p) ==> Below(c, p)
  {
    hide GoodRoutes, Masked, Compact;
    assert GoodChild(t.prefix, b, c);
    StemContains(c.prefix, p.addr);
  }

  function InsertBelow(t: Trie, p: IpPrefix, r: RouteId): (Trie, Option<RouteId>)
    requires Below(t, p)
    decreases t
  {
    hide GoodRoutes, Masked, Contains, GoodChild;
    if p.bits - t.prefix.bits <= 8 then
      StrideInsert(t, p.addr.octets[FinalByte(p)], FinalBits(p), r)
    else
      var b := p.addr.octets[t.prefix.bits / 8];
      match ChildAt(t, b)
      case None => (SetChild(t, b, Leaf(p, r)), None)
      case Some(c) =>
        BelowChild(t, p, b, c);
        if !StrictlyContains(c.prefix, p) then
          (SetChild(t, b, Split(c, p, r)), None)
        else
          var (c', previous) := InsertBelow(c, p, r);
          (SetChild(t, b, c'), previous)
  }

  function InsertInto(t: Trie, p: IpPrefix, r: RouteId): (Trie, Option<RouteId>)
    requires WellFormed(t) && t.prefix.bits == 0
    requires ValidPrefix(p) && IsMasked(p) && p.addr.v6 == t.prefix.addr.v6
  {
    if p.bits == 0 then StrideInsert(t, 0, 0, r) else InsertBelow(t, p, r)
  }

  lemma LeafCorrect(p: IpPrefix, r: RouteId)
    requires ValidPrefix(p) && IsMasked(p) && p.bits > 0
    ensures WellFormed(Leaf(p, r)) && Compact(Leaf(p, r))
    ensures Leaf(p, r).prefix.addr.v6 == p.addr.v6 && Stem(Leaf(p, r).prefix) == KeyOf(p).stem
    ensures forall k :: Find(Leaf(p, r), k) == if k == KeyOf(p) then Some(r) else None
  {
    var stem := AtByteBoundary(p, FinalByte(p) * 8);
    BoundaryStem(p, FinalByte(p));
    assert FinalByte(p) * 8 == 8 * FinalByte(p);
    NewStrideEmpty(stem);
    StrideInsertCorrect(NewStride(stem), p.addr.octets[FinalByte(p)], FinalBits(p), r);
  }

  /** Every key below a child descends through the child's slot. */
  lemma KeyTakesSlot(parent: IpPrefix, b: byte, c: Trie, k: Key)
    requires GoodChild(parent, b, c) && Find(c, k).Some?
    ensures |Stem(parent)| < |k.stem| && k.stem[|Stem(parent)|] == b
  {
    hide GoodRoutes, IsStem, RootAt;
    FindInside(c, k);
    assert k.stem[|Stem(parent)|] == Stem(c.prefix)[|Stem(parent)|];
  }

  /** The intermediate stride, before the new prefix goes in, routes exactly what the old child routes. */
  lemma WithOldCorrect(mid: IpPrefix, x: byte, c: Trie)
    requires IsStem(mid) && GoodChild(mid, x, c)
    ensures WellFormed(SetChild(NewStride(mid), x, c))
    ensures forall k :: Find(SetChild(NewStride(mid), x, c), k) == Find(c, k)
  {
    hide GoodRoutes, IsStem, Compact, RootAt;
    var withOld := SetChild(NewStride(mid), x, c);
    NewStrideEmpty(mid);
    SetChildCorrect(NewStride(mid), x, c);
    forall k ensures Find(withOld, k) == Find(c, k) {
      if Find(c, k).Some? { KeyTakesSlot(mid, x, c, k); }
    }
  }

  lemma SplitAt(c: Trie, p: IpPrefix, r: RouteId, mid: IpPrefix, x: byte, y: byte)
    requires IsStem(mid) && GoodChild(mid, x, c)
    requires ValidPrefix(p) && IsMasked(p) && p.addr.v6 == mid.addr.v6 && mid.bits < p.bits
    requires Stem(mid) == p.addr.octets[..mid.bits / 8] && y == p.addr.octets[mid.bits / 8]
    requires p.bits - mid.bits > 8 ==> x != y
    requires forall k :: Find(c, k) != Some(r)
    requires Find(c, KeyOf(p)) == None
    ensures var withOld := SetChild(NewStride(mid), x, c);
            var t := if p.bits - mid.bits <= 8
                     then StrideInsert(withOld, p.addr.octets[FinalByte(p)], FinalBits(p), r).0
                     else SetChild(withOld, y, Leaf(p, r));
            && WellFormed(t) && Compact(t) && t.prefix == mid
            && forall k :: Find(t, k) == if k == KeyOf(p) then Some(r) else Find(c, k)
  {
    hide GoodRoutes, Masked, RootAt, StrideInsert, ComputeSplit;
    var withOld := SetChild(NewStride(mid), x, c);
    WithOldCorrect(mid, x, c);
    if p.bits - mid.bits <= 8 {
      assert FinalByte(p) == mid.bits / 8;
      StrideInsertCorrect(withOld, p.addr.octets[FinalByte(p)], FinalBits(p), r);
    } else {
      LeafCorrect(p, r);
      assert FinalByte(p) > mid.bits / 8;
      assert Within(Stem(mid), y, KeyOf(p).stem);
      SetChildCorrect(withOld, y, Leaf(p, r));
      SlotsDistinct(SetChild(withOld, y, Leaf(p, r)), x, y);
      forall k | Through(withOld, y, k) ensures Find(c, k) == None {
        if Find(c, k).Some? { KeyTakesSlot(mid, x, c, k); }
      }
    }
  }

  /** A split keeps every old key, adds the new one, and lies strictly between parent and old child. */
  lemma SplitCorrect(parent: IpPrefix, b: byte, c: Trie, p: IpPrefix, r: RouteId)
    requires IsStem(parent) && GoodChild(parent, b, c)
    requires ValidPrefix(p) && IsMasked(p) && p.addr.v6 == parent.addr.v6
    requires p.bits - parent.bits > 8 && Stem(parent) <= p.addr.octets && p.addr.octets[parent.bits / 8] == b
    requires ValidPrefix(c.prefix) && !StrictlyContains(c.prefix, p)
    requires forall k :: Find(c, k) != Some(r)
    ensures GoodChild(parent, b, Split(c, p, r))
    ensures parent.bits < Split(c, p, r).prefix.bits < c.prefix.bits
    ensures Find(c, KeyOf(p)) == None
    ensures forall k :: Find(Split(c, p, r), k) == if k == KeyOf(p) then Some(r) else Find(c, k)
  {
    hide GoodRoutes, Masked, RootAt, StrideInsert, ComputeSplit, Leaf, NewStride, SetChild;
    SameHead(Stem(parent), b, Stem(c.prefix), c.prefix.addr.octets, p.addr.octets);
    SplitProperties(c.prefix, p, parent.bits / 8 + 1);
    var (mid, x, y) := ComputeSplit(c.prefix, p);
    assert Within(Stem(mid), x, Stem(c.prefix));
    if Find(c, KeyOf(p)).Some? {
      FindInside(c, KeyOf(p));
      NotInside(c.prefix, p);
    }
    SplitAt(c, p, r, mid, x, y);
    assert Within(Stem(parent), b, Stem(mid));
  }

  lemma SameHead(stem: Bytes, b: byte, below: Bytes, a: Bytes, o: Bytes)
    requires Within(stem, b, below) && below <= a && stem <= o && |stem| < |o| && o[|stem|] == b
    ensures a[..|stem| + 1] == o[..|stem| + 1]
  {
    assert a[..|stem| + 1] == below[..|stem| + 1];
    assert below[..|stem| + 1] == stem + [b] == o[..|stem| + 1];
  }

  lemma NotInside(c: IpPrefix, p: IpPrefix)
    requires IsStem(c) && ValidPrefix(p) && c.addr.v6 == p.addr.v6 && p.bits > 0
    requires Stem(c) <= KeyOf(p).stem
    ensures StrictlyContains(c, p)
  {
    StemContains(c, p.addr);
    assert Stem(c) <= p.addr.octets;
  }

  lemma SlotsDistinct(t: Trie, x: byte, y: byte)
    requires WellFormed(t) && x != y && ChildAt(t, x).Some? && ChildAt(t, y).Some?
    ensures t.childRefs > 1
  {
    var two: set<nat> := {x as nat, y as nat};
    assert two <= Slots(t.children);
    CardinalityMonotone(two, Slots(t.children));
  }

  lemma {:induction false} CardinalityMonotone(a: set<nat>, b: set<nat>)
    requires a <= b
    ensures |a| <= |b|
  {
    if a != {} {
      var x :| x in a;
      CardinalityMonotone(a - {x}, b - {x});
    }
  }

  /** Insertion below a stride adds exactly the key of the prefix, and reports what it replaced. */
  lemma {:induction false} InsertBelowCorrect(t: Trie, p: IpPrefix, r: RouteId)
    requires Below(t, p)
    requires forall k :: Find(t, k) != Some(r)
    ensures var (t', previous) := InsertBelow(t, p, r);
            && WellFormed(t') && t'.prefix == t.prefix
            && (Compact(t) ==> Compact(t'))
            && previous == Find(t, KeyOf(p))
            && forall k :: Find(t', k) == if k == KeyOf(p) then Some(r) else Find(t, k)
    decreases t
  {
    hide GoodRoutes, Masked, RootAt, StrideInsert, Split, Leaf, SetChild, Contains;
    var key := KeyOf(p);
    if p.bits - t.prefix.bits <= 8 {
      assert FinalByte(p) == t.prefix.bits / 8;
      assert key.stem == Stem(t.prefix);
      StrideInsertCorrect(t, p.addr.octets[FinalByte(p)], FinalBits(p), r);
    } else {
      var depth := t.prefix.bits / 8;
      var b := p.addr.octets[depth];
      assert Through(t, b, key);
      match ChildAt(t, b)
      case None =>
        LeafCorrect(p, r);
        assert GoodChild(t.prefix, b, Leaf(p, r));
        SetChildCorrect(t, b, Leaf(p, r));
      case Some(c) =>
        assert GoodChild(t.prefix, b, c);
        BelowChild(t, p, b, c);
        forall k ensures Find(c, k) != Some(r) && (Find(c, k).Some? ==> Through(t, b, k)) {
          ChildFind(t, b, c, k);
        }
        if !StrictlyContains(c.prefix, p) {
          SplitCorrect(t.prefix, b, c, p, r);
          SetChildCorrect(t, b, Split(c, p, r));
        } else {
          StemContains(c.prefix, p.addr);
          InsertBelowCorrect(c, p, r);
          SetChildCorrect(t, b, InsertBelow(c, p, r).0);
        }
    }
  }

  lemma ChildFind(t: Trie, b: byte, c: Trie, k: Key)
    requires WellFormed(t) && ChildAt(t, b) == Some(c)
    ensures WellFormed(c)
    ensures Find(c, k).Some? ==> Through(t, b, k) && Find(t, k) == Find(c, k)
  {
    assert GoodChild(t.prefix, b, c);
    if Find(c, k).Some? { KeyTakesSlot(t.prefix, b, c, k); }
  }

  /** Insertion at the root: the new key is added, every other key keeps its route. */
  lemma InsertIntoCorrect(t: Trie, p: IpPrefix, r: RouteId)
    requires WellFormed(t) && t.prefix.bits == 0
    requires ValidPrefix(p) && IsMasked(p) && p.addr.v6 == t.prefix.addr.v6
    requires forall k :: Find(t, k) != Some(r)
    ensures var (t', previous) := InsertInto(t, p, r);
            && WellFormed(t') && t'.prefix == t.prefix
            && previous == Find(t, KeyOf(p))
            && forall k :: Find(t', k) == if k == KeyOf(p) then Some(r) else Find(t, k)
  {
    hide GoodRoutes, RootAt, StrideInsert, InsertBelow, GoodChild;
    if p.bits == 0 {
      assert p.addr.octets[0] == 0;
      StrideInsertCorrect(t, 0, 0, r);
    } else {
      InsertBelowCorrect(t, p, r);
    }
  }

  // ----- deletion -----

  /** Compaction after a deletion below slot `b` left the child as `c`. */
  function CleanChild(t: Trie, b: byte, c: Trie): Trie
    requires |t.children| == CHILD_COUNT
  {
    var first := ChildAt(c, FirstSlot(c.children, 0));
    if Compact(c) then SetChild(t, b, c)
    else if c.childRefs == 0 || first.None? then DeleteChild(t, b)
    else SetChild(t, b, first.value)
  }

  /** Deletion below a stride. The descent does not check that the strides it passes contain the prefix. */
  function DeleteBelow(t: Trie, p: IpPrefix): (Trie, Option<RouteId>)
    requires WellFormed(t) && ValidPrefix(p) && p.addr.v6 == t.prefix.addr.v6 && t.prefix.bits <= p.bits
    decreases t
  {
    hide GoodRoutes, Masked, Contains, GoodChild;
    if p.bits - t.prefix.bits <= 8 then
      if !StrictlyContains(t.prefix, p) then (t, None)
      else StrideDelete(t, p.addr.octets[t.prefix.bits / 8], p.bits - t.prefix.bits)
    else
      var b := p.addr.octets[t.prefix.bits / 8];
      match ChildAt(t, b)
      case None => (t, None)
      case Some(c) =>
        SlotChild(t, b, c);
        if p.bits < c.prefix.bits then (t, None)
        else
          var (c', removed) := DeleteBelow(c, p);
          if removed.None? then (t, None) else (CleanChild(t, b, c'), removed)
  }

  lemma SlotChild(t: Trie, b: byte, c: Trie)
    requires WellFormed(t) && ChildAt(t, b) == Some(c)
    ensures GoodChild(t.prefix, b, c) && WellFormed(c) && c.prefix.addr.v6 == t.prefix.addr.v6
    ensures c.prefix.bits > t.prefix.bits
  {
    hide GoodRoutes, Masked;
    assert GoodChild(t.prefix, b, c);
  }

  function DeleteFrom(t: Trie, p: IpPrefix): (Trie, Option<RouteId>)
    requires WellFormed(t) && t.prefix.bits == 0
    requires ValidPrefix(p) && p.addr.v6 == t.prefix.addr.v6
  {
    if p.bits == 0 then StrideDelete(t, 0, 0) else DeleteBelow(t, p)
  }

  /** A stride that is neither routed nor branching routes exactly what its one child routes. */
  lemma OnlyChild(c: Trie)
    requires WellFormed(c) && c.routeRefs == 0 && c.childRefs == 1
    ensures var x := FirstSlot(c.children, 0);
            && x < CHILD_COUNT && ChildAt(c, x).Some?
            && GoodChild(c.prefix, x, ChildAt(c, x).value)
            && forall k :: Find(c, k) == Find(ChildAt(c, x).value, k)
  {
    var x := FirstSlot(c.children, 0);
    assert x == CHILD_COUNT ==> Slots(c.children) == {};
    var g := ChildAt(c, x).value;
    assert GoodChild(c.prefix, x, g);
    assert Slots(c.children) == {x} by { SingletonSet(Slots(c.children), x); }
    forall k ensures Find(c, k) == Find(g, k) {
      NoRoutes(c, k.idx);
      if Find(g, k).Some? { KeyTakesSlot(c.prefix, x, g, k); }
      assert forall i: nat :: ChildAt(c, i).Some? <==> i in Slots(c.children);
    }
  }

  lemma SingletonSet(s: set<nat>, x: nat)
    requires |s| == 1 && x in s
    ensures s == {x}
  {
    assert |s - {x}| == 0;
    assert s - {x} == {};
  }

  lemma NoRoutes(c: Trie, idx: nat)
    requires WellFormed(c) && c.routeRefs == 0
    ensures RootAt(c.entries, idx) == None
  {
    assert RootsOf(c.entries) == map[];
    RootAtRoots(c.entries);
  }

  lemma NoKeys(c: Trie, k: Key)
    requires WellFormed(c) && c.routeRefs == 0 && c.childRefs == 0
    ensures Find(c, k) == None
  {
    NoRoutes(c, k.idx);
    assert forall i: nat :: ChildAt(c, i).Some? <==> i in Slots(c.children);
  }

  /** Compaction never changes which keys are routed, and leaves a well-formed stride. */
  lemma CleanChildCorrect(t: Trie, b: byte, c: Trie)
    requires WellFormed(t) && WellFormed(c) && c.prefix.addr.v6 == t.prefix.addr.v6
    requires Within(Stem(t.prefix), b, Stem(c.prefix))
    ensures var t' := CleanChild(t, b, c);
            && WellFormed(t') && t'.prefix == t.prefix
            && forall k :: Find(t', k) == if Through(t, b, k) then Find(c, k) else Find(t, k)
  {
    hide GoodRoutes, Masked, RootAt, SetChild, DeleteChild;
    if Compact(c) {
      SetChildCorrect(t, b, c);
    } else if c.childRefs == 0 {
      forall k ensures Find(c, k) == None { NoKeys(c, k); }
      DeleteChildCorrect(t, b);
    } else {
      OnlyChild(c);
      var g := ChildAt(c, FirstSlot(c.children, 0)).value;
      assert Within(Stem(t.prefix), b, Stem(g.prefix)) by {
        assert Stem(g.prefix)[..|Stem(c.prefix)|] == Stem(c.prefix);
        assert Stem(g.prefix)[..|Stem(t.prefix)|] == Stem(c.prefix)[..|Stem(t.prefix)|];
      }
      SetChildCorrect(t, b, g);
    }
  }

  lemma {:induction false} DeleteBelowCorrect(t: Trie, p: IpPrefix)
    requires WellFormed(t) && ValidPrefix(p) && p.addr.v6 == t.prefix.addr.v6
    requires 0 < p.bits && t.prefix.bits <= p.bits
    ensures var (t', removed) := DeleteBelow(t, p);
            && WellFormed(t') && t'.prefix == t.prefix
            && removed == Find(t, KeyOf(p))
            && (removed == None ==> t' == t)
            && forall k :: Find(t', k) == if k == KeyOf(p) then None else Find(t, k)
    decreases t
  {
    hide GoodRoutes, Masked, RootAt, StrideDelete, CleanChild, Contains, GoodChild;
    var key := KeyOf(p);
    if p.bits - t.prefix.bits <= 8 {
      StemContains(t.prefix, p.addr);
      if t.prefix.bits < p.bits {
        assert FinalByte(p) == t.prefix.bits / 8;
        if StrictlyContains(t.prefix, p) {
          assert key.stem == Stem(t.prefix);
          StrideDeleteCorrect(t, p.addr.octets[t.prefix.bits / 8], p.bits - t.prefix.bits);
        }
      }
    } else {
      var b := p.addr.octets[t.prefix.bits / 8];
      assert Through(t, b, key);
      match ChildAt(t, b)
      case None =>
      case Some(c) =>
        SlotChild(t, b, c);
        assert Within(Stem(t.prefix), b, Stem(c.prefix)) by { ChildWithin(t.prefix, b, c); }
        if p.bits < c.prefix.bits {
          if Find(c, key).Some? { FindInside(c, key); }
        } else {
          DeleteBelowCorrect(c, p);
          CleanChildCorrect(t, b, DeleteBelow(c, p).0);
        }
    }
  }

  lemma ChildWithin(parent: IpPrefix, b: nat, c: Trie)
    requires GoodChild(parent, b, c)
    ensures Within(Stem(parent), b, Stem(c.prefix))
  {
  }

  /** Deletion at the root removes exactly the key of the prefix and reports its route. */
  lemma DeleteFromCorrect(t: Trie, p: IpPrefix)
    requires WellFormed(t) && t.prefix.bits == 0
    requires ValidPrefix(p) && IsMasked(p) && p.addr.v6 == t.prefix.addr.v6
    ensures var (t', removed) := DeleteFrom(t, p);
            && WellFormed(t') && t'.prefix == t.prefix
            && removed == Find(t, KeyOf(p))
            && (removed == None ==> t' == t)
            && forall k :: Find(t', k) == if k == KeyOf(p) then None else Find(t, k)
  {
    hide GoodRoutes, RootAt, StrideDelete, DeleteBelow, GoodChild;
    if p.bits == 0 {
      assert p.addr.octets[0] == 0;
      StrideDeleteCorrect(t, 0, 0);
    } else {
      DeleteBelowCorrect(t, p);
    }
  }

  // ----- deletion in two passes -----

  /** The first pass: the route is removed and the slots taken are recorded; nothing is compacted. */
  function DeleteAlong(t: Trie, p: IpPrefix): (Trie, Option<RouteId>, seq<byte>)
    requires WellFormed(t) && ValidPrefix(p) && p.addr.v6 == t.prefix.addr.v6 && t.prefix.bits <= p.bits
    decreases t
  {
    hide GoodRoutes, Masked, Contains, GoodChild;
    if p.bits - t.prefix.bits <= 8 then
      if !StrictlyContains(t.prefix, p) then (t, None, [])
      else
        var (t', removed) := StrideDelete(t, p.addr.octets[t.prefix.bits / 8], p.bits - t.prefix.bits);
        (t', removed, [])
    else
      var b := p.addr.octets[t.prefix.bits / 8];
      match ChildAt(t, b)
      case None => (t, None, [])
      case Some(c) =>
        SlotChild(t, b, c);
        if p.bits < c.prefix.bits then (t, None, [])
        else
          var (c', removed, path) := DeleteAlong(c, p);
          if removed.None? then (t, None, []) else (SetChild(t, b, c'), removed, [b] + path)
  }

  /** The second pass: compaction along the recorded slots, innermost first. */
  function CleanPath(t: Trie, path: seq<byte>): Trie
    requires FollowsPath(t, path)
    decreases path
  {
    if path == [] then t
    else CleanChild(t, path[0], CleanPath(ChildAt(t, path[0]).value, path[1..]))
  }

  /** The child counter is exact. */
  predicate Counted(t: Trie) {
    |t.children| == CHILD_COUNT && t.childRefs == |Slots(t.children)|
  }

  lemma ChildUpdatesCounted(t: Trie, b: byte, c: Trie)
    requires Counted(t)
    ensures Counted(SetChild(t, b, c)) && Counted(DeleteChild(t, b))
    ensures t.children[b].Some? ==> t.childRefs > 0
  {
    assert b in Slots(t.children) <==> t.children[b].Some?;
    assert Slots(SetChild(t, b, c).children) == Slots(t.children) + {b};
    assert Slots(DeleteChild(t, b).children) == Slots(t.children) - {b};
  }

  lemma FirstSlotExists(t: Trie)
    requires Counted(t) && t.childRefs > 0
    ensures FirstSlot(t.children, 0) < CHILD_COUNT
  {
    assert FirstSlot(t.children, 0) == CHILD_COUNT ==> Slots(t.children) == {};
  }

  lemma CleanPathCounted(t: Trie, path: seq<byte>)
    requires FollowsPath(t, path)
    ensures Counted(CleanPath(t, path))
  {
    if path != [] {
      var c := CleanPath(ChildAt(t, path[0]).value, path[1..]);
      var first := ChildAt(c, FirstSlot(c.children, 0));
      ChildUpdatesCounted(t, path[0], if Compact(c) || first.None? then c else first.value);
    }
  }

  predicate FollowsPath(t: Trie, path: seq<byte>)
    decreases path
  {
    && Counted(t)
    && (path != [] ==> ChildAt(t, path[0]).Some? && FollowsPath(ChildAt(t, path[0]).value, path[1..]))
  }

  /** Removing first and compacting afterwards is compacting on the way back up. */
  lemma {:induction false} TwoPasses(t: Trie, p: IpPrefix)
    requires WellFormed(t) && ValidPrefix(p) && p.addr.v6 == t.prefix.addr.v6 && t.prefix.bits <= p.bits
    ensures var (t', removed, path) := DeleteAlong(t, p);
            && FollowsPath(t', path)
            && DeleteBelow(t, p) == (CleanPath(t', path), removed)
    decreases t
  {
    hide GoodRoutes, Masked, Contains, GoodChild, CleanChild, StrideDelete;
    StrideDeleteChildren(t);
    if p.bits - t.prefix.bits > 8 {
      var b := p.addr.octets[t.prefix.bits / 8];
      match ChildAt(t, b)
      case None =>
      case Some(c) =>
        SlotChild(t, b, c);
        if p.bits >= c.prefix.bits {
          TwoPasses(c, p);
          var (c', removed, path) := DeleteAlong(c, p);
          assert ([b] + path)[1..] == path;
          CleanOverwrites(t, b, c', CleanPath(c', path));
          ChildUpdatesCounted(t, b, c');
        }
    }
  }

  lemma StrideDeleteChildren(t: Trie)
    ensures forall addr: byte, len: nat | len <= 8 ::
              && StrideDelete(t, addr, len).0.children == t.children
              && StrideDelete(t, addr, len).0.childRefs == t.childRefs
  {
  }

  lemma CleanOverwrites(t: Trie, b: byte, c: Trie, c': Trie)
    requires |t.children| == CHILD_COUNT && ChildAt(t, b).Some?
    ensures ChildAt(SetChild(t, b, c), b) == Some(c)
    ensures CleanChild(SetChild(t, b, c), b, c') == CleanChild(t, b, c')
  {
    assert t.children[b := Some(c)][b := Some(c')] == t.children[b := Some(c')];
    assert t.children[b := Some(c)][b := None] == t.children[b := None];
    var first := ChildAt(c', FirstSlot(c'.children, 0));
    if first.Some? {
      assert t.children[b := Some(c)][b := first] == t.children[b := first];
    }
  }
}
