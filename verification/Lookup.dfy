/**
  Longest-prefix-match lookup. The descent follows compressed edges without checking them and
  decides afterwards which of the strides it met really contain the address.
 */
module Lookup {
  import opened Common
  import opened Stride
  import opened Prefix
  import opened Trie

  /** One stride met on the way down that shows a route for the address. */
  datatype Match = Match(prefix: IpPrefix, route: RouteId)

  /** All matches below `t`, outermost first. */
  function Matches(t: Trie, a: IpAddr): seq<Match>
    requires WellFormed(t) && ValidAddr(a) && a.v6 == t.prefix.addr.v6
    decreases t
  {
    hide GoodRoutes, Masked, GoodChild;
    var b := a.octets[t.prefix.bits / 8];
    var here := t.entries[HostIndex(b)];
    var own := if here.Some? then [Match(t.prefix, here.value)] else [];
    match ChildAt(t, b)
    case None => own
    case Some(c) =>
      SlotChild(t, b, c);
      own + Matches(c, a)
  }

  /** One step of the descent. */
  lemma MatchesStep(t: Trie, a: IpAddr)
    requires WellFormed(t) && ValidAddr(a) && a.v6 == t.prefix.addr.v6
    ensures t.prefix.bits / 8 < |a.octets| <= 16
    ensures var b := a.octets[t.prefix.bits / 8];
            var here := t.entries[HostIndex(b)];
            var own := if here.Some? then [Match(t.prefix, here.value)] else [];
            var c := ChildAt(t, b);
            && (c.None? ==> Matches(t, a) == own)
            && (c.Some? ==> WellFormed(c.value) && c.value.prefix.addr.v6 == a.v6
                            && c.value.prefix.bits / 8 > t.prefix.bits / 8
                            && Matches(t, a) == own + Matches(c.value, a))
  {
    hide GoodRoutes, Masked, GoodChild;
    var b := a.octets[t.prefix.bits / 8];
    if ChildAt(t, b).Some? { SlotChildDeeper(t, b, ChildAt(t, b).value); }
  }

  lemma SlotChildDeeper(t: Trie, b: byte, c: Trie)
    requires WellFormed(t) && ChildAt(t, b) == Some(c)
    ensures WellFormed(c) && c.prefix.addr.v6 == t.prefix.addr.v6 && c.prefix.bits / 8 > t.prefix.bits / 8
  {
    hide GoodRoutes, Masked;
    assert GoodChild(t.prefix, b, c);
  }

  /** The innermost match whose stride contains the address. */
  function LastContaining(matches: seq<Match>, a: IpAddr): Option<RouteId>
    requires ValidAddr(a) && forall m | m in matches :: ValidPrefix(m.prefix)
  {
    if matches == [] then None
    else
      var last := matches[|matches| - 1];
      if Contains(last.prefix, a) then Some(last.route)
      else LastContaining(matches[..|matches| - 1], a)
  }

  /** The route of the longest key in the trie that covers the address, checked stride by stride. */
  function Get(t: Trie, a: Bytes): Option<RouteId>
    decreases t
  {
    var depth := |Stem(t.prefix)|;
    if depth < |a| && Stem(t.prefix) <= a then
      var c := ChildAt(t, a[depth]);
      var deeper := if c.Some? then Get(c.value, a) else None;
      if deeper.Some? then deeper else t.entries[HostIndex(a[depth])]
    else None
  }

  lemma {:induction false} MatchesGood(t: Trie, a: IpAddr)
    requires WellFormed(t) && ValidAddr(a) && a.v6 == t.prefix.addr.v6
    ensures forall m | m in Matches(t, a) ::
              IsStem(m.prefix) && m.prefix.addr.v6 == a.v6 && Stem(t.prefix) <= Stem(m.prefix)
    ensures |Matches(t, a)| <= Width(a.v6) - t.prefix.bits / 8
    decreases t
  {
    hide GoodRoutes, Masked;
    var b := a.octets[t.prefix.bits / 8];
    match ChildAt(t, b)
    case None =>
    case Some(c) =>
      SlotChild(t, b, c);
      MatchesGood(c, a);
  }

  lemma {:induction false} LastContainingAppend(x: seq<Match>, y: seq<Match>, a: IpAddr)
    requires ValidAddr(a) && forall m | m in x + y :: ValidPrefix(m.prefix)
    ensures forall m :: (m in x || m in y) ==> m in x + y
    ensures LastContaining(x + y, a) ==
            if LastContaining(y, a).Some? then LastContaining(y, a) else LastContaining(x, a)
  {
    if y == [] {
      assert x + y == x;
    } else {
      assert (x + y)[..|x + y| - 1] == x + y[..|y| - 1];
      LastContainingAppend(x, y[..|y| - 1], a);
    }
  }

  lemma {:induction false} NoneContains(matches: seq<Match>, a: IpAddr)
    requires ValidAddr(a) && forall m | m in matches :: ValidPrefix(m.prefix) && !Contains(m.prefix, a)
    ensures LastContaining(matches, a) == None
  {
    if matches != [] { NoneContains(matches[..|matches| - 1], a); }
  }

  /** Deciding containment after the descent gives the same answer as deciding it on the way. */
  lemma {:induction false} OptimisticDescent(t: Trie, a: IpAddr)
    requires WellFormed(t) && ValidAddr(a) && a.v6 == t.prefix.addr.v6
    ensures forall m | m in Matches(t, a) :: ValidPrefix(m.prefix)
    ensures LastContaining(Matches(t, a), a) == Get(t, a.octets)
    decreases t
  {
    hide GoodRoutes, Masked, Contains;
    MatchesGood(t, a);
    if Stem(t.prefix) <= a.octets {
      StemContains(t.prefix, a);
      var b := a.octets[t.prefix.bits / 8];
      var here := t.entries[HostIndex(b)];
      var own := if here.Some? then [Match(t.prefix, here.value)] else [];
      assert LastContaining(own, a) == here;
      match ChildAt(t, b)
      case None =>
      case Some(c) =>
        SlotChild(t, b, c);
        OptimisticDescent(c, a);
        LastContainingAppend(own, Matches(c, a), a);
    } else {
      forall m | m in Matches(t, a) ensures !Contains(m.prefix, a) { StemContains(m.prefix, a); }
      NoneContains(Matches(t, a), a);
    }
  }

  // ----- longest prefix match -----

  /** `k` is the longest routed key covering the address, and `r` its route. */
  ghost predicate Longest(t: Trie, a: Bytes, k: Key, r: RouteId) {
    && Find(t, k) == Some(r)
    && KeyCovers(k, a)
    && forall other | Find(t, other).Some? && KeyCovers(other, a) && other != k :: KeyLength(other) < KeyLength(k)
  }

  /** Within one stride, the host entry shows the deepest root above the host. */
  lemma HostEntry(t: Trie, host: byte) returns (idx: nat)
    requires WellFormed(t)
    ensures t.entries[HostIndex(host)] == None ==> forall j | RootAt(t.entries, j).Some? :: !Under(j, HostIndex(host))
    ensures t.entries[HostIndex(host)].Some? ==>
              && RootAt(t.entries, idx) == t.entries[HostIndex(host)] && Under(idx, HostIndex(host)) && idx >= 1
              && forall j | RootAt(t.entries, j).Some? && Under(j, HostIndex(host)) && j != idx :: Depth(j) < Depth(idx)
  {
    var roots := RootsOf(t.entries);
    idx := Nearest(roots.Keys, HostIndex(host));
    assert t.entries[HostIndex(host)] == Allotted(roots, HostIndex(host));
    RootAtRoots(t.entries);
    forall j | RootAt(t.entries, j).Some? && Under(j, HostIndex(host))
      ensures idx >= 1 && (j != idx ==> Depth(j) < Depth(idx))
    {
      assert j in roots.Keys;
      UnderDepth(j, idx);
    }
  }

  /** Covering keys inside a trie lie on the path of the address. */
  lemma CoveringKey(t: Trie, a: Bytes, k: Key)
    requires WellFormed(t) && Find(t, k).Some? && KeyCovers(k, a)
    ensures Stem(t.prefix) <= a && |Stem(t.prefix)| < |a|
    ensures |k.stem| > |Stem(t.prefix)| ==>
              ChildAt(t, a[|Stem(t.prefix)|]).Some? && Find(t, k) == Find(ChildAt(t, a[|Stem(t.prefix)|]).value, k)
    ensures |k.stem| <= |Stem(t.prefix)| ==>
              k.stem == Stem(t.prefix) && RootAt(t.entries, k.idx).Some? && Under(k.idx, HostIndex(a[|Stem(t.prefix)|]))
  {
    hide GoodRoutes, IsStem, GoodChild, RootAt;
    FindInside(t, k);
    assert k.stem[..|Stem(t.prefix)|] == Stem(t.prefix);
  }

  /**
    The lookup is longest-prefix match: it finds a route exactly when some routed key covers the
    address, and then it is the route of the single longest such key.
   */
  lemma {:induction false} GetIsLongest(t: Trie, a: Bytes) returns (k: Key)
    requires WellFormed(t)
    ensures Get(t, a) == None ==> forall other | Find(t, other).Some? :: !KeyCovers(other, a)
    ensures Get(t, a).Some? ==> Longest(t, a, k, Get(t, a).value)
    decreases t
  {
    hide GoodRoutes, IsStem, RootAt, GoodChild;
    var depth := |Stem(t.prefix)|;
    k := Key([], 0);
    if depth < |a| && Stem(t.prefix) <= a {
      var b := a[depth];
      var c := ChildAt(t, b);
      var idx := HostEntry(t, b);
      if c.Some? {
        SlotChild(t, b, c.value);
        k := GetIsLongest(c.value, a);
        if Get(c.value, a).Some? {
          DeeperWins(t, a, c.value, k);
          return;
        }
      }
      k := Key(Stem(t.prefix), idx);
      LocalWins(t, a, idx);
    } else {
      forall other | Find(t, other).Some? ensures !KeyCovers(other, a) {
        if KeyCovers(other, a) { CoveringKey(t, a, other); }
      }
    }
  }

  /** A match in the child on the path beats every match in the stride itself. */
  lemma DeeperWins(t: Trie, a: Bytes, c: Trie, k: Key)
    requires WellFormed(t) && |Stem(t.prefix)| < |a| && Stem(t.prefix) <= a
    requires ChildAt(t, a[|Stem(t.prefix)|]) == Some(c) && Get(c, a).Some?
    requires Longest(c, a, k, Get(c, a).value)
    ensures Longest(t, a, k, Get(t, a).value)
  {
    hide GoodRoutes, IsStem, RootAt, GoodChild;
    var b := a[|Stem(t.prefix)|];
    ChildFind(t, b, c, k);
    forall other | Find(t, other).Some? && KeyCovers(other, a) && other != k
      ensures KeyLength(other) < KeyLength(k)
    {
      CoveringKey(t, a, other);
      if |other.stem| <= |Stem(t.prefix)| {
        FindInside(t, other);
        DepthAtMost8(other.idx, a[|Stem(t.prefix)|]);
        DeepKey(t, b, k);
      }
    }
  }

  lemma DeepKey(t: Trie, b: byte, k: Key)
    requires WellFormed(t) && Find(t, k).Some? && Through(t, b, k)
    ensures KeyLength(k) > 8 * |Stem(t.prefix)| + 8
  {
    hide GoodRoutes, IsStem, RootAt, GoodChild;
    FindInside(t, k);
    assert k.idx != 1;
  }

  lemma DepthAtMost8(idx: nat, host: byte)
    requires idx >= 1 && Under(idx, HostIndex(host))
    ensures Depth(idx) <= 8
  {
    UnderDepth(idx, HostIndex(host));
    PrefixIndexRange(host, 8);
    DepthRange(HostIndex(host), 8);
  }

  lemma LocalWins(t: Trie, a: Bytes, idx: nat)
    requires WellFormed(t) && |Stem(t.prefix)| < |a| && Stem(t.prefix) <= a
    requires var c := ChildAt(t, a[|Stem(t.prefix)|]);
             c.Some? ==> forall other | Find(c.value, other).Some? :: !KeyCovers(other, a)
    requires var host := HostIndex(a[|Stem(t.prefix)|]);
             && (t.entries[host] == None ==> forall j | RootAt(t.entries, j).Some? :: !Under(j, host))
             && (t.entries[host].Some? ==>
                   && RootAt(t.entries, idx) == t.entries[host] && Under(idx, host) && idx >= 1
                   && forall j | RootAt(t.entries, j).Some? && Under(j, host) && j != idx :: Depth(j) < Depth(idx))
    ensures var here := t.entries[HostIndex(a[|Stem(t.prefix)|])];
            && (here == None ==> forall other | Find(t, other).Some? :: !KeyCovers(other, a))
            && (here.Some? ==> Longest(t, a, Key(Stem(t.prefix), idx), here.value))
  {
    hide GoodRoutes, IsStem, RootAt, GoodChild;
    var k := Key(Stem(t.prefix), idx);
    forall other | Find(t, other).Some? && KeyCovers(other, a)
      ensures t.entries[HostIndex(a[|Stem(t.prefix)|])].Some?
      ensures other != k ==> KeyLength(other) < KeyLength(k)
    {
      CoveringKey(t, a, other);
    }
  }
}
