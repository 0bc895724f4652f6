/**
  The routing table over both families: the stride tries, the map of exact prefixes and the slot
  allocator for values, as one state with its operations, and what holds after every history.
 */
module RouteTable {
  import opened Common
  import opened Stride
  import opened Prefix
  import opened Trie
  import Lookup
  import Canonical

  datatype Table<V> = Table(
    v4: Trie,
    v6: Trie,
    routes: map<IpPrefix, RouteId>,
    values: seq<Option<V>>,
    free: seq<RouteId>)

  function DefaultRoute(v6: bool): IpPrefix {
    IpPrefix(IpAddr(v6, Zeros(Width(v6))), 0)
  }

  function Empty<V>(): Table<V> {
    Table(NewStride(DefaultRoute(false)), NewStride(DefaultRoute(true)), map[], [], [])
  }

  function Root<V>(s: Table<V>, v6: bool): Trie {
    if v6 then s.v6 else s.v4
  }

  function WithRoot<V>(s: Table<V>, v6: bool, t: Trie): Table<V> {
    if v6 then s.(v6 := t) else s.(v4 := t)
  }

  // ----- the invariant -----

  /** The trie routes exactly the prefixes of its family. */
  ghost predicate Indexes(t: Trie, v6: bool, routes: map<IpPrefix, RouteId>) {
    && WellFormed(t) && t.prefix == DefaultRoute(v6)
    && (forall p | p in routes && p.addr.v6 == v6 :: ValidPrefix(p) && Find(t, KeyOf(p)) == Some(routes[p]))
    && (forall k | Find(t, k).Some? :: HasPrefix(routes, v6, k))
  }

  ghost predicate HasPrefix(routes: map<IpPrefix, RouteId>, v6: bool, k: Key) {
    exists p :: p in routes && p.addr.v6 == v6 && ValidPrefix(p) && KeyOf(p) == k
  }

  /** Live ids are distinct and hold a value; the other slots are exactly the free list. */
  ghost predicate Slotted<V>(routes: map<IpPrefix, RouteId>, values: seq<Option<V>>, free: seq<RouteId>) {
    && (forall p | p in routes :: routes[p] < |values| && values[routes[p]].Some?)
    && (forall p, q | p in routes && q in routes && p != q :: routes[p] != routes[q])
    && (forall i | 0 <= i < |free| :: free[i] < |values| && values[free[i]].None?)
    && (forall i, j | 0 <= i < j < |free| :: free[i] != free[j])
    && (forall i | 0 <= i < |values| && values[i].None? :: i in free)
    && |values| == |routes| + |free|
  }

  ghost predicate Masks(routes: map<IpPrefix, RouteId>) {
    forall p | p in routes :: ValidPrefix(p) && IsMasked(p)
  }

  ghost predicate Valid<V>(s: Table<V>) {
    && Masks(s.routes)
    && Indexes(s.v4, false, s.routes)
    && Indexes(s.v6, true, s.routes)
    && Slotted(s.routes, s.values, s.free)
  }

  /** What the table maps each prefix to. */
  ghost function Contents<V>(s: Table<V>): map<IpPrefix, V>
    requires Slotted(s.routes, s.values, s.free)
  {
    map p | p in s.routes :: s.values[s.routes[p]].value
  }

  // ----- operations -----

  /** Puts a value in a free slot, or in a new one when none is free. */
  function Allocate<V>(s: Table<V>, value: V): (r: (Table<V>, RouteId))
    requires Slotted(s.routes, s.values, s.free)
  {
    if |s.free| > 0 then
      var route := s.free[|s.free| - 1];
      (s.(values := s.values[route := Some(value)], free := s.free[..|s.free| - 1]), route)
    else
      (s.(values := s.values + [Some(value)]), |s.values|)
  }

  function Release<V>(s: Table<V>, route: RouteId): Table<V>
    requires route < |s.values|
  {
    s.(values := s.values[route := None], free := s.free + [route])
  }

  function Insert<V>(s: Table<V>, prefix: IpPrefix, value: V): (r: (Table<V>, Option<V>))
    requires Valid(s) && ValidPrefix(prefix)
  {
    hide Indexes, Masked;
    MaskedOnce(prefix);
    var p := Masked(prefix);
    if p in s.routes then
      var route := s.routes[p];
      (s.(values := s.values[route := Some(value)]), s.values[route])
    else
      var (s1, route) := Allocate(s, value);
      RootReady(s, p.addr.v6);
      var (t, _) := InsertInto(Root(s, p.addr.v6), p, route);
      (WithRoot(s1, p.addr.v6, t).(routes := s1.routes[p := route]), None)
  }

  function Delete<V>(s: Table<V>, prefix: IpPrefix): (r: (Table<V>, Option<V>))
    requires Valid(s) && ValidPrefix(prefix)
  {
    hide Indexes, Masked;
    var p := Masked(prefix);
    if p !in s.routes then (s, None)
    else
      var expected := s.routes[p];
      RootReady(s, p.addr.v6);
      var (t, _) := DeleteFrom(Root(s, p.addr.v6), p);
      (Release(WithRoot(s, p.addr.v6, t).(routes := s.routes - {p}), expected), s.values[expected])
  }

  function Get<V>(s: Table<V>, a: IpAddr): Option<V>
    requires Valid(s) && ValidAddr(a)
  {
    hide Indexes;
    RootReady(s, a.v6);
    Lookup.MatchesGood(Root(s, a.v6), a);
    var route := Lookup.LastContaining(Lookup.Matches(Root(s, a.v6), a), a);
    if route.Some? && route.value < |s.values| then s.values[route.value] else None
  }

  lemma MaskedOnce(p: IpPrefix)
    requires ValidPrefix(p)
    ensures IsMasked(Masked(p))
  {
    MaskedProperties(p);
  }

  lemma RootReady<V>(s: Table<V>, v6: bool)
    requires Valid(s)
    ensures Indexes(Root(s, v6), v6, s.routes)
    ensures WellFormed(Root(s, v6)) && Root(s, v6).prefix == DefaultRoute(v6)
  {
  }

  lemma EmptyValid<V>()
    ensures Valid(Empty<V>())
    ensures Contents(Empty<V>()) == map[]
  {
    DefaultIsStem(false);
    DefaultIsStem(true);
    NewStrideEmpty(DefaultRoute(false));
    NewStrideEmpty(DefaultRoute(true));
  }

  lemma DefaultIsStem(v6: bool)
    ensures IsStem(DefaultRoute(v6))
  {
    assert MaskOctets(Zeros(Width(v6)), 0) == Zeros(Width(v6));
  }

  // ----- insertion -----

  /** Reusing the most recently freed slot. */
  lemma ReuseSlot<V>(routes: map<IpPrefix, RouteId>, values: seq<Option<V>>, free: seq<RouteId>, p: IpPrefix, value: V)
    requires Slotted(routes, values, free) && p !in routes && |free| > 0
    ensures var route := free[|free| - 1];
            && (forall q | q in routes :: routes[q] != route)
            && Slotted(routes[p := route], values[route := Some(value)], free[..|free| - 1])
  {
    var route := free[|free| - 1];
    var values' := values[route := Some(value)];
    assert |routes[p := route]| == |routes| + 1;
    forall i | 0 <= i < |values'| && values'[i].None? ensures i in free[..|free| - 1] {
      assert i in free;
      var j :| 0 <= j < |free| && free[j] == i;
      assert free[..|free| - 1][j] == i;
    }
  }

  /** Growing by one slot when none is free. */
  lemma GrowSlots<V>(routes: map<IpPrefix, RouteId>, values: seq<Option<V>>, p: IpPrefix, value: V)
    requires Slotted(routes, values, []) && p !in routes
    ensures forall q | q in routes :: routes[q] != |values|
    ensures Slotted(routes[p := |values|], values + [Some(value)], [])
  {
    assert |routes[p := |values|]| == |routes| + 1;
  }

  /** Allocation hands out an id no live prefix has, and grows only when every slot is live. */
  lemma AllocateCorrect<V>(s: Table<V>, p: IpPrefix, value: V)
    requires Slotted(s.routes, s.values, s.free) && p !in s.routes
    ensures var (s1, route) := Allocate(s, value);
            && s1.routes == s.routes && s1.v4 == s.v4 && s1.v6 == s.v6
            && (forall q | q in s.routes :: s.routes[q] != route)
            && Slotted(s.routes[p := route], s1.values, s1.free)
            && s1.values[route] == Some(value)
            && (forall q | q in s.routes :: s1.values[s.routes[q]] == s.values[s.routes[q]])
            && |s1.values| == Max(|s.values|, |s.routes| + 1)
  {
    if |s.free| > 0 {
      ReuseSlot(s.routes, s.values, s.free, p, value);
    } else {
      assert s.free == [];
      GrowSlots(s.routes, s.values, p, value);
    }
  }

  /** Freshness of an id in the route map is freshness in the trie. */
  lemma FreshId(t: Trie, v6: bool, routes: map<IpPrefix, RouteId>, r: RouteId, k: Key)
    requires Indexes(t, v6, routes) && forall q | q in routes :: routes[q] != r
    ensures Find(t, k) != Some(r)
  {
    hide WellFormed;
    if Find(t, k).Some? {
      assert HasPrefix(routes, v6, k);
      var p :| p in routes && p.addr.v6 == v6 && ValidPrefix(p) && KeyOf(p) == k;
      assert Find(t, KeyOf(p)) == Some(routes[p]);
    }
  }

  lemma Absent(t: Trie, v6: bool, routes: map<IpPrefix, RouteId>, p: IpPrefix)
    requires Indexes(t, v6, routes) && Masks(routes)
    requires ValidPrefix(p) && IsMasked(p) && p.addr.v6 == v6 && p !in routes
    ensures Find(t, KeyOf(p)) == None
  {
    hide WellFormed, Masked, Find;
    if Find(t, KeyOf(p)).Some? {
      assert HasPrefix(routes, v6, KeyOf(p));
      var q :| q in routes && q.addr.v6 == v6 && ValidPrefix(q) && KeyOf(q) == KeyOf(p);
      KeyOfInjective(p, q);
    }
  }

  /** Inserting into the trie and into the route map keeps them in step. */
  lemma InsertIndexes(t: Trie, v6: bool, routes: map<IpPrefix, RouteId>, p: IpPrefix, r: RouteId)
    requires Indexes(t, v6, routes) && Masks(routes)
    requires ValidPrefix(p) && IsMasked(p) && p.addr.v6 == v6 && p !in routes
    requires forall q | q in routes :: routes[q] != r
    ensures InsertInto(t, p, r).1 == None
    ensures Indexes(InsertInto(t, p, r).0, v6, routes[p := r])
  {
    hide WellFormed, Masked, Find, KeyOf, InsertInto;
    forall k ensures Find(t, k) != Some(r) { FreshId(t, v6, routes, r, k); }
    Absent(t, v6, routes, p);
    InsertIntoCorrect(t, p, r);
    var routes' := routes[p := r];
    var t' := InsertInto(t, p, r).0;
    forall q | q in routes' && q.addr.v6 == v6 ensures ValidPrefix(q) && Find(t', KeyOf(q)) == Some(routes'[q]) {
      if q != p && KeyOf(q) == KeyOf(p) { KeyOfInjective(p, q); }
    }
    forall k | Find(t', k).Some? ensures HasPrefix(routes', v6, k) {
      if k != KeyOf(p) {
        assert HasPrefix(routes, v6, k);
        var q :| q in routes && q.addr.v6 == v6 && ValidPrefix(q) && KeyOf(q) == k;
        assert q in routes';
      }
    }
  }

  /** The other family's trie is not concerned. */
  lemma OtherFamily(t: Trie, v6: bool, routes: map<IpPrefix, RouteId>, routes': map<IpPrefix, RouteId>)
    requires Indexes(t, v6, routes)
    requires forall p: IpPrefix | p.addr.v6 == v6 :: p in routes <==> p in routes'
    requires forall p: IpPrefix | p.addr.v6 == v6 && p in routes :: routes'[p] == routes[p]
    ensures Indexes(t, v6, routes')
  {
    hide WellFormed, Find, KeyOf;
    forall k | Find(t, k).Some? ensures HasPrefix(routes', v6, k) {
      assert HasPrefix(routes, v6, k);
      var q :| q in routes && q.addr.v6 == v6 && ValidPrefix(q) && KeyOf(q) == k;
      assert q in routes';
    }
  }

  /** Replacing the value of an installed prefix touches nothing else. */
  lemma ReplaceCorrect<V>(s: Table<V>, p: IpPrefix, value: V)
    requires Valid(s) && p in s.routes
    ensures var s' := s.(values := s.values[s.routes[p] := Some(value)]);
            Valid(s') && Contents(s') == Contents(s)[p := value]
  {
    hide Indexes, Masked;
  }

  lemma AddContents<V>(s: Table<V>, s': Table<V>, p: IpPrefix, value: V)
    requires Slotted(s.routes, s.values, s.free) && Slotted(s'.routes, s'.values, s'.free) && p !in s.routes
    requires p in s'.routes && s'.routes == s.routes[p := s'.routes[p]] && s'.values[s'.routes[p]] == Some(value)
    requires |s.values| <= |s'.values| && forall q | q in s.routes :: s'.values[s.routes[q]] == s.values[s.routes[q]]
    ensures Contents(s') == Contents(s)[p := value]
  {
  }

  /** The trie accepts the new id without replacing a route, and the table stays in step. */
  lemma AddCorrect<V>(s: Table<V>, p: IpPrefix, value: V)
    requires Valid(s) && ValidPrefix(p) && IsMasked(p) && p !in s.routes
    ensures Indexes(Root(s, p.addr.v6), p.addr.v6, s.routes)
    ensures InsertInto(Root(s, p.addr.v6), p, Allocate(s, value).1).1 == None
    ensures var (s1, route) := Allocate(s, value);
            var t := InsertInto(Root(s, p.addr.v6), p, route).0;
            var s' := WithRoot(s1, p.addr.v6, t).(routes := s1.routes[p := route]);
            && Valid(s') && Contents(s') == Contents(s)[p := value]
            && |s'.values| == Max(|s.values|, |s'.routes|)
  {
    hide Indexes, Masked, InsertInto, Allocate, Slotted, Contents;
    AllocateCorrect(s, p, value);
    var (s1, route) := Allocate(s, value);
    RootReady(s, p.addr.v6);
    InsertIndexes(Root(s, p.addr.v6), p.addr.v6, s.routes, p, route);
    RootReady(s, !p.addr.v6);
    OtherFamily(Root(s, !p.addr.v6), !p.addr.v6, s.routes, s.routes[p := route]);
    assert |s.routes[p := route]| == |s.routes| + 1;
    var t := InsertInto(Root(s, p.addr.v6), p, route).0;
    AddContents(s, WithRoot(s1, p.addr.v6, t).(routes := s1.routes[p := route]), p, value);
  }

  /** Insertion is map insertion on the masked prefix and returns the value it replaced. */
  lemma InsertCorrect<V>(s: Table<V>, prefix: IpPrefix, value: V)
    requires Valid(s) && ValidPrefix(prefix)
    ensures var (s', previous) := Insert(s, prefix, value);
            var p := Masked(prefix);
            && Valid(s')
            && Contents(s') == Contents(s)[p := value]
            && previous == (if p in Contents(s) then Some(Contents(s)[p]) else None)
            && |s'.values| == Max(|s.values|, |s'.routes|)
  {
    hide Indexes, Masked, InsertInto, Allocate;
    MaskedOnce(prefix);
    var p := Masked(prefix);
    if p in s.routes {
      ReplaceCorrect(s, p, value);
    } else {
      AddCorrect(s, p, value);
    }
  }

  // ----- deletion -----

  lemma DeleteIndexes(t: Trie, v6: bool, routes: map<IpPrefix, RouteId>, p: IpPrefix)
    requires Indexes(t, v6, routes) && Masks(routes) && p in routes && p.addr.v6 == v6
    ensures ValidPrefix(p) && DeleteFrom(t, p).1 == Some(routes[p])
    ensures Indexes(DeleteFrom(t, p).0, v6, routes - {p})
  {
    hide WellFormed, Masked, Find, KeyOf, DeleteFrom;
    DeleteFromCorrect(t, p);
    var routes' := routes - {p};
    var t' := DeleteFrom(t, p).0;
    forall q | q in routes' && q.addr.v6 == v6 ensures ValidPrefix(q) && Find(t', KeyOf(q)) == Some(routes'[q]) {
      if KeyOf(q) == KeyOf(p) { KeyOfInjective(p, q); }
    }
    forall k | Find(t', k).Some? ensures HasPrefix(routes', v6, k) {
      assert HasPrefix(routes, v6, k);
      var q :| q in routes && q.addr.v6 == v6 && ValidPrefix(q) && KeyOf(q) == k;
      assert q in routes';
    }
  }

  lemma ReleaseCorrect<V>(s: Table<V>, p: IpPrefix)
    requires Slotted(s.routes, s.values, s.free) && p in s.routes
    ensures Slotted(s.routes - {p}, s.values[s.routes[p] := None], s.free + [s.routes[p]])
  {
    var route := s.routes[p];
    assert (s.routes - {p}).Keys == s.routes.Keys - {p};
    assert route !in s.free;
    var free' := s.free + [route];
    forall i | 0 <= i < |s.values| && s.values[route := None][i].None? ensures i in free' {
      if i == route { assert free'[|s.free|] == route; } else { assert i in s.free; }
    }
  }

  lemma RemoveContents<V>(s: Table<V>, s': Table<V>, p: IpPrefix)
    requires Slotted(s.routes, s.values, s.free) && Slotted(s'.routes, s'.values, s'.free) && p in s.routes
    requires s'.routes == s.routes - {p} && s'.values == s.values[s.routes[p] := None]
    ensures Contents(s') == Contents(s) - {p}
  {
  }

  /** The trie gives back exactly the id the route map expects, and the table stays in step. */
  lemma RemoveCorrect<V>(s: Table<V>, p: IpPrefix)
    requires Valid(s) && p in s.routes
    ensures ValidPrefix(p) && Indexes(Root(s, p.addr.v6), p.addr.v6, s.routes)
    ensures s.routes[p] < |s.values|
    ensures DeleteFrom(Root(s, p.addr.v6), p).1 == Some(s.routes[p])
    ensures var t := DeleteFrom(Root(s, p.addr.v6), p).0;
            var s' := Release(WithRoot(s, p.addr.v6, t).(routes := s.routes - {p}), s.routes[p]);
            Valid(s') && Contents(s') == Contents(s) - {p}
  {
    hide Indexes, Masked, DeleteFrom, Contents, Slotted;
    assert s.routes[p] < |s.values| by { LiveSlot(s, p); }
    ReleaseCorrect(s, p);
    RootReady(s, p.addr.v6);
    DeleteIndexes(Root(s, p.addr.v6), p.addr.v6, s.routes, p);
    RootReady(s, !p.addr.v6);
    OtherFamily(Root(s, !p.addr.v6), !p.addr.v6, s.routes, s.routes - {p});
    var t := DeleteFrom(Root(s, p.addr.v6), p).0;
    RemoveContents(s, Release(WithRoot(s, p.addr.v6, t).(routes := s.routes - {p}), s.routes[p]), p);
  }

  lemma LiveSlot<V>(s: Table<V>, p: IpPrefix)
    requires Slotted(s.routes, s.values, s.free) && p in s.routes
    ensures s.routes[p] < |s.values| && s.values[s.routes[p]].Some?
  {
  }

  /** Deletion is map removal of the masked prefix and returns the value it held. */
  lemma DeleteCorrect<V>(s: Table<V>, prefix: IpPrefix)
    requires Valid(s) && ValidPrefix(prefix)
    ensures var (s', removed) := Delete(s, prefix);
            var p := Masked(prefix);
            && Valid(s')
            && Contents(s') == Contents(s) - {p}
            && removed == (if p in Contents(s) then Some(Contents(s)[p]) else None)
            && |s'.values| == |s.values|
  {
    hide Indexes, Masked, DeleteFrom;
    var p := Masked(prefix);
    if p in s.routes {
      RemoveCorrect(s, p);
    }
  }

  // ----- the steps of an update -----

  /** What an insertion does, step by step; the trie never reports a route to replace. */
  lemma InsertValue<V>(s: Table<V>, prefix: IpPrefix, value: V)
    requires Valid(s) && ValidPrefix(prefix)
    ensures var p := Masked(prefix);
            && IsMasked(p) && Slotted(s.routes, s.values, s.free)
            && WellFormed(Root(s, p.addr.v6)) && Root(s, p.addr.v6).prefix == DefaultRoute(p.addr.v6)
            && (p in s.routes ==>
                  && s.routes[p] < |s.values|
                  && Insert(s, prefix, value) ==
                     (s.(values := s.values[s.routes[p] := Some(value)]), s.values[s.routes[p]]))
            && (p !in s.routes ==>
                  var (s1, route) := Allocate(s, value);
                  var (t, replaced) := InsertInto(Root(s, p.addr.v6), p, route);
                  && replaced == None
                  && Insert(s, prefix, value) == (WithRoot(s1, p.addr.v6, t).(routes := s.routes[p := route]), None)
                  && s1.routes == s.routes && s1.v4 == s.v4 && s1.v6 == s.v6)
  {
    hide Indexes, Masked, InsertInto;
    MaskedOnce(prefix);
    var p := Masked(prefix);
    RootReady(s, p.addr.v6);
    if p !in s.routes { AddCorrect(s, p, value); }
  }

  /** What a deletion does, step by step; the trie always gives back the expected id. */
  lemma DeleteValue<V>(s: Table<V>, prefix: IpPrefix)
    requires Valid(s) && ValidPrefix(prefix)
    ensures var p := Masked(prefix);
            && WellFormed(Root(s, p.addr.v6)) && Root(s, p.addr.v6).prefix == DefaultRoute(p.addr.v6)
            && (p !in s.routes ==> Delete(s, prefix) == (s, None))
            && (p in s.routes ==>
                  var (t, removed) := DeleteFrom(Root(s, p.addr.v6), p);
                  && removed == Some(s.routes[p]) && s.routes[p] < |s.values|
                  && Delete(s, prefix) ==
                     (WithRoot(s, p.addr.v6, t).(routes := s.routes - {p},
                                                 values := s.values[s.routes[p] := None],
                                                 free := s.free + [s.routes[p]]),
                      s.values[s.routes[p]]))
  {
    hide Indexes, Masked, DeleteFrom;
    var p := Masked(prefix);
    RootReady(s, p.addr.v6);
    if p in s.routes { RemoveCorrect(s, p); }
  }

  // ----- lookup -----

  /** The reference: `r` is the value of the longest prefix of `m` that contains the address. */
  ghost predicate NaiveGet<V>(m: map<IpPrefix, V>, a: IpAddr, r: Option<V>)
    requires ValidAddr(a) && forall p | p in m :: ValidPrefix(p)
  {
    match r
    case None => forall p | p in m :: !Contains(p, a)
    case Some(v) =>
      exists p :: p in m && Contains(p, a) && m[p] == v &&
                  forall q | q in m && Contains(q, a) && q != p :: q.bits < p.bits
  }

  /** The reference answer is unique. */
  lemma NaiveGetUnique<V>(m: map<IpPrefix, V>, a: IpAddr, r: Option<V>, r': Option<V>)
    requires ValidAddr(a) && forall p | p in m :: ValidPrefix(p)
    requires NaiveGet(m, a, r) && NaiveGet(m, a, r')
    ensures r == r'
  {
  }

  lemma KeyOfPrefix<V>(s: Table<V>, v6: bool, k: Key) returns (p: IpPrefix)
    requires Valid(s) && Find(Root(s, v6), k).Some?
    ensures p in s.routes && p.addr.v6 == v6 && ValidPrefix(p) && KeyOf(p) == k
    ensures Find(Root(s, v6), k) == Some(s.routes[p])
  {
    hide WellFormed, Find, KeyOf;
    RootReady(s, v6);
    assert HasPrefix(s.routes, v6, k);
    p :| p in s.routes && p.addr.v6 == v6 && ValidPrefix(p) && KeyOf(p) == k;
  }

  /** The table's lookup is the reference lookup on its contents. */
  lemma GetIsNaive<V>(s: Table<V>, a: IpAddr)
    requires Valid(s) && ValidAddr(a)
    ensures NaiveGet(Contents(s), a, Get(s, a))
  {
    hide WellFormed, Find, KeyOf, Contains, KeyCovers, KeyLength, Lookup.Get, Lookup.LastContaining;
    var t := Root(s, a.v6);
    RootReady(s, a.v6);
    Lookup.OptimisticDescent(t, a);
    var k := Lookup.GetIsLongest(t, a.octets);
    forall q | q in s.routes && Contains(q, a)
      ensures q.addr.v6 == a.v6 && KeyCovers(KeyOf(q), a.octets) && Find(t, KeyOf(q)).Some?
              && KeyLength(KeyOf(q)) == q.bits
    {
      ContainsAgrees(q, a);
      KeyOfContains(q, a);
    }
    if Lookup.Get(t, a.octets).Some? {
      var p := KeyOfPrefix(s, a.v6, k);
      KeyOfContains(p, a);
      LongestPrefix(s, a, t, k, p);
      assert Get(s, a) == Some(Contents(s)[p]);
    }
  }

  lemma LongestPrefix<V>(s: Table<V>, a: IpAddr, t: Trie, k: Key, p: IpPrefix)
    requires Valid(s) && ValidAddr(a) && t == Root(s, a.v6)
    requires p in s.routes && p.addr.v6 == a.v6 && KeyOf(p) == k && KeyLength(k) == p.bits
    requires Find(t, k) == Some(s.routes[p]) && Lookup.Longest(t, a.octets, k, s.routes[p])
    requires forall q | q in s.routes && Contains(q, a) ::
               q.addr.v6 == a.v6 && KeyCovers(KeyOf(q), a.octets) && Find(t, KeyOf(q)).Some?
                 && KeyLength(KeyOf(q)) == q.bits
    ensures forall q | q in s.routes && Contains(q, a) && q != p :: q.bits < p.bits
  {
    hide WellFormed, Find, KeyOf, Contains, KeyCovers, KeyLength, Masked;
    forall q | q in s.routes && Contains(q, a) && q != p ensures q.bits < p.bits {
      if KeyOf(q) == k { KeyOfInjective(p, q); }
    }
  }

  // ----- histories -----

  datatype Op<V> = InsertOp(prefix: IpPrefix, value: V) | DeleteOp(prefix: IpPrefix) | ClearOp

  predicate ValidOp<V>(op: Op<V>) {
    op.ClearOp? || ValidPrefix(op.prefix)
  }

  predicate ValidOps<V>(ops: seq<Op<V>>) {
    forall i | 0 <= i < |ops| :: ValidOp(ops[i])
  }

  /** One operation on the table. */
  function Step<V>(s: Table<V>, op: Op<V>): Table<V>
    requires Valid(s) && ValidOp(op)
  {
    match op
    case InsertOp(p, v) => Insert(s, p, v).0
    case DeleteOp(p) => Delete(s, p).0
    case ClearOp => Empty()
  }

  /** The same operation on a plain map. */
  function StepMap<V>(m: map<IpPrefix, V>, op: Op<V>): map<IpPrefix, V>
    requires ValidOp(op)
  {
    match op
    case InsertOp(p, v) => m[Masked(p) := v]
    case DeleteOp(p) => m - {Masked(p)}
    case ClearOp => map[]
  }

  lemma StepCorrect<V>(s: Table<V>, op: Op<V>)
    requires Valid(s) && ValidOp(op)
    ensures Valid(Step(s, op))
    ensures Contents(Step(s, op)) == StepMap(Contents(s), op)
    ensures |Step(s, op).values| == if op.ClearOp? then 0 else Max(|s.values|, |Step(s, op).routes|)
  {
    hide Valid, Insert, Delete, Masked;
    match op
    case InsertOp(p, v) => InsertCorrect(s, p, v);
    case DeleteOp(p) =>
      DeleteCorrect(s, p);
      LiveAtMostSlots(Delete(s, p).0);
    case ClearOp => EmptyValid<V>();
  }

  lemma LiveAtMostSlots<V>(s: Table<V>)
    requires Valid(s)
    ensures |s.routes| <= |s.values|
  {
    hide Indexes;
  }

  /** The table after a history. */
  ghost function Run<V>(ops: seq<Op<V>>): (s: Table<V>)
    requires ValidOps(ops)
    ensures Valid(s)
    ensures Contents(s) == RunMap(ops)
    ensures |s.values| == PeakLive(ops)
  {
    hide Valid, Step, StepMap;
    if ops == [] then
      EmptyValid<V>();
      Empty()
    else
      var before := Run(ops[..|ops| - 1]);
      StepCorrect(before, ops[|ops| - 1]);
      ContentsSize(Step(before, ops[|ops| - 1]));
      Step(before, ops[|ops| - 1])
  }

  lemma RunStart<V>()
    ensures Run<V>([]) == Empty()
  {
  }

  lemma RunMore<V>(ops: seq<Op<V>>, op: Op<V>)
    requires ValidOps(ops) && ValidOp(op)
    ensures ValidOps(ops + [op]) && Run(ops + [op]) == Step(Run(ops), op)
  {
    hide Valid, Step;
    assert (ops + [op])[..|ops|] == ops;
  }

  /** The plain map after a history. */
  ghost function RunMap<V>(ops: seq<Op<V>>): map<IpPrefix, V>
    requires ValidOps(ops)
  {
    if ops == [] then map[] else StepMap(RunMap(ops[..|ops| - 1]), ops[|ops| - 1])
  }

  /** The most prefixes installed at once since the last clear. */
  ghost function PeakLive<V>(ops: seq<Op<V>>): nat
    requires ValidOps(ops)
  {
    if ops == [] then 0
    else if ops[|ops| - 1].ClearOp? then 0
    else Max(PeakLive(ops[..|ops| - 1]), |RunMap(ops)|)
  }

  lemma ContentsSize<V>(s: Table<V>)
    requires Valid(s)
    ensures |Contents(s)| == |s.routes|
  {
    hide Indexes;
    assert Contents(s).Keys == s.routes.Keys;
  }

  /**
    After every history of inserts, deletes and clears, looking up any address gives the value of
    the longest installed prefix containing it, as scanning the plain map would.
   */
  lemma LookupAfterHistory<V>(ops: seq<Op<V>>, a: IpAddr)
    requires ValidOps(ops) && ValidAddr(a)
    ensures forall p | p in RunMap(ops) :: ValidPrefix(p)
    ensures NaiveGet(RunMap(ops), a, Get(Run(ops), a))
  {
    GetIsNaive(Run(ops), a);
  }

  /** Histories that install the same prefixes build tries of the same shape, whatever route ids they used. */
  lemma HistoriesCanonical<V, W>(ops: seq<Op<V>>, ops': seq<Op<W>>)
    requires ValidOps(ops) && ValidOps(ops') && RunMap(ops).Keys == RunMap(ops').Keys
    ensures Canonical.SameShape(Run(ops).v4, Run(ops').v4)
    ensures Canonical.SameShape(Run(ops).v6, Run(ops').v6)
  {
    hide Run, RunMap, Indexes, Slotted, Canonical.SameShape;
    var s, u := Run(ops), Run(ops');
    assert s.routes.Keys == Contents(s).Keys == Contents(u).Keys == u.routes.Keys;
    SameRoutes(s.v4, u.v4, false, s.routes, u.routes);
    SameRoutes(s.v6, u.v6, true, s.routes, u.routes);
  }

  lemma SameRoutes(t: Trie, u: Trie, v6: bool, routes: map<IpPrefix, RouteId>, routes': map<IpPrefix, RouteId>)
    requires Indexes(t, v6, routes) && Indexes(u, v6, routes') && routes.Keys == routes'.Keys
    ensures Canonical.SameShape(t, u)
  {
    hide WellFormed, Find, KeyOf;
    forall k ensures Find(t, k).Some? <==> Find(u, k).Some? {
      if Find(t, k).Some? { Routed(t, u, v6, routes, routes', k); }
      if Find(u, k).Some? { Routed(u, t, v6, routes', routes, k); }
    }
    Canonical.KeysDetermineShape(t, u);
  }

  lemma Routed(t: Trie, u: Trie, v6: bool, routes: map<IpPrefix, RouteId>, routes': map<IpPrefix, RouteId>, k: Key)
    requires Indexes(t, v6, routes) && Indexes(u, v6, routes') && routes.Keys == routes'.Keys && Find(t, k).Some?
    ensures Find(u, k).Some?
  {
    hide WellFormed, Find, KeyOf;
    assert HasPrefix(routes, v6, k);
    var q :| q in routes && q.addr.v6 == v6 && ValidPrefix(q) && KeyOf(q) == k;
    assert q in routes';
  }

  // ----- size -----

  ghost function OfFamily(prefixes: set<IpPrefix>, v6: bool): set<IpPrefix> {
    set p | p in prefixes && p.addr.v6 == v6
  }

  ghost function KeysOf(prefixes: set<IpPrefix>): set<Key>
    requires forall p | p in prefixes :: ValidPrefix(p)
  {
    set p | p in prefixes :: KeyOf(p)
  }

  lemma {:induction false} KeysOfCount(prefixes: set<IpPrefix>, v6: bool)
    requires forall p | p in prefixes :: ValidPrefix(p) && IsMasked(p) && p.addr.v6 == v6
    ensures |KeysOf(prefixes)| == |prefixes|
  {
    hide Masked, KeyOf;
    if prefixes != {} {
      var x :| x in prefixes;
      KeysOfCount(prefixes - {x}, v6);
      assert KeysOf(prefixes) == KeysOf(prefixes - {x}) + {KeyOf(x)};
      if KeyOf(x) in KeysOf(prefixes - {x}) {
        var y :| y in prefixes - {x} && KeyOf(y) == KeyOf(x);
        KeyOfInjective(x, y);
      }
    }
  }

  lemma FamilyKey<V>(s: Table<V>, v6: bool, k: Key)
    requires Valid(s)
    ensures k in Canonical.KeySet(Root(s, v6)) <==> k in KeysOf(OfFamily(s.routes.Keys, v6))
  {
    hide WellFormed, Find, KeyOf, Masked, Canonical.KeySet;
    RootReady(s, v6);
    Canonical.KeySetIsFind(Root(s, v6), k);
    if Find(Root(s, v6), k).Some? {
      var p := KeyOfPrefix(s, v6, k);
      assert p in OfFamily(s.routes.Keys, v6);
    }
  }

  lemma FamilyKeys<V>(s: Table<V>, v6: bool)
    requires Valid(s)
    ensures |Canonical.KeySet(Root(s, v6))| == |OfFamily(s.routes.Keys, v6)|
  {
    hide Indexes, KeyOf, Masked, Canonical.KeySet, Slotted;
    var prefixes := OfFamily(s.routes.Keys, v6);
    KeysOfCount(prefixes, v6);
    forall k ensures k in Canonical.KeySet(Root(s, v6)) <==> k in KeysOf(prefixes) { FamilyKey(s, v6, k); }
    assert Canonical.KeySet(Root(s, v6)) == KeysOf(prefixes);
  }

  /** Across both families there are at most two strides plus two per installed prefix. */
  lemma StridesLinear<V>(s: Table<V>)
    requires Valid(s)
    ensures Canonical.NumStrides(s.v4) + Canonical.NumStrides(s.v6) <= 2 + 2 * |s.routes|
    ensures Canonical.NumStrides(s.v4) + Canonical.NumStrides(s.v6) ==
            |Canonical.StemSet(s.v4)| + |Canonical.StemSet(s.v6)|
  {
    hide WellFormed, Canonical.KeySet, Canonical.NumStrides, Canonical.StemSet;
    Canonical.NumStridesCounts(s.v4);
    Canonical.NumStridesCounts(s.v6);
    Canonical.StridesBounded(s.v4);
    Canonical.StridesBounded(s.v6);
    FamilyKeys(s, false);
    FamilyKeys(s, true);
    var all := s.routes.Keys;
    assert all == OfFamily(all, false) + OfFamily(all, true);
  }
}
