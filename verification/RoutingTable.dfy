/**
  The routing table as a mutable object: the two stride trees, the exact-prefix map, the value
  slots and the free list. Every method is proved against the function of the same name in RouteTable.
 */
module RoutingTables {
  import opened Common
  import opened Prefix
  import opened Stride
  import T = Trie
  import Lookup
  import Canonical
  import S = RouteTable
  import opened StrideTables

  class RoutingTable<V> {
    var v4: StrideTable
    var v6: StrideTable
    var routes: map<IpPrefix, RouteId>
    var values: seq<Option<V>>
    var free: seq<RouteId>

    ghost function State(): S.Table<V>
      reads this, v4, v6
    {
      S.Table(v4.model, v6.model, routes, values, free)
    }

    ghost predicate Valid()
      reads this, v4, v6, v4.repr, v6.repr
    {
      && v4.Valid() && v6.Valid()
      && v4.repr !! v6.repr && this !in v4.repr && this !in v6.repr
      && S.Valid(State())
    }

    constructor ()
      ensures Valid() && fresh(v4.repr) && fresh(v6.repr)
      ensures State() == S.Empty()
    {
      v4 := new StrideTable(S.DefaultRoute(false));
      v6 := new StrideTable(S.DefaultRoute(true));
      routes := map[];
      values := [];
      free := [];
      new;
      S.EmptyValid<V>();
    }

    method Clear()
      requires Valid()
      modifies this
      ensures Valid() && fresh(v4.repr) && fresh(v6.repr)
      ensures State() == S.Empty()
    {
      hide S.Valid, T.NewStride, S.DefaultRoute, StrideTable.Valid;
      v4 := new StrideTable(S.DefaultRoute(false));
      v6 := new StrideTable(S.DefaultRoute(true));
      routes := map[];
      values := [];
      free := [];
      S.EmptyValid<V>();
    }

    method Allocate(value: V) returns (route: RouteId)
      requires S.Slotted(routes, values, free)
      modifies this`values, this`free
      ensures var (s, r) := S.Allocate(old(State()), value);
              route == r && values == s.values && free == s.free
    {
      if |free| > 0 {
        route := free[|free| - 1];
        free := free[..|free| - 1];
        assert values[route].None?;
        values := values[route := Some(value)];
      } else {
        values := values + [Some(value)];
        route := |values| - 1;
      }
    }

    /** The stride tree of a family. */
    function Root(v6Family: bool): StrideTable
      reads this
    {
      if v6Family then v6 else v4
    }

    method Insert(prefix: IpPrefix, value: V) returns (previous: Option<V>)
      requires Valid() && ValidPrefix(prefix)
      modifies this, v4.repr, v6.repr
      ensures Valid() && v4 == old(v4) && v6 == old(v6)
      ensures fresh(v4.repr - old(v4.repr)) && fresh(v6.repr - old(v6.repr))
      ensures (State(), previous) == S.Insert(old(State()), prefix, value)
    {
      hide S.Valid, Masked, T.InsertInto, S.Allocate, S.Insert, T.WellFormed, StrideTable.Valid, S.Slotted;
      S.InsertCorrect(State(), prefix, value);
      S.InsertValue(State(), prefix, value);
      var p := Masked(prefix);
      if p in routes {
        previous := values[routes[p]];
        values := values[routes[p] := Some(value)];
        return;
      }
      var root := Root(p.addr.v6);
      root.SamePrefix();
      var route := Allocate(value);
      var replaced := root.InsertInto(p, route);
      assert replaced.None?;
      routes := routes[p := route];
      previous := None;
    }

    method Delete(prefix: IpPrefix) returns (removed: Option<V>)
      requires Valid() && ValidPrefix(prefix)
      modifies this, v4.repr, v6.repr
      ensures Valid() && v4 == old(v4) && v6 == old(v6)
      ensures v4.repr <= old(v4.repr) && v6.repr <= old(v6.repr)
      ensures (State(), removed) == S.Delete(old(State()), prefix)
    {
      hide S.Valid, Masked, T.DeleteFrom, S.Delete, T.WellFormed, StrideTable.Valid;
      S.DeleteCorrect(State(), prefix);
      S.DeleteValue(State(), prefix);
      var p := Masked(prefix);
      if p !in routes {
        return None;
      }
      var root := Root(p.addr.v6);
      root.SamePrefix();
      var expected := routes[p];
      routes := routes - {p};
      var found := root.DeleteFrom(p);
      assert found == Some(expected);
      removed := values[expected];
      values := values[expected := None];
      free := free + [expected];
    }

    /** Follows the address down from `root`, noting each stride that shows a route; sixteen places always suffice. */
    static method CollectMatches(root: StrideTable, a: IpAddr)
      returns (matches: array<Option<Lookup.Match>>, count: nat)
      requires root.Valid() && T.WellFormed(root.model) && root.model.prefix.addr.v6 == a.v6 && ValidAddr(a)
      ensures fresh(matches) && matches.Length == 16 && count == |Lookup.Matches(root.model, a)| <= 16
      ensures forall i | 0 <= i < count :: matches[i] == Some(Lookup.Matches(root.model, a)[i])
    {
      hide T.WellFormed, Lookup.Matches, StrideTable.Valid, T.ChildAt;
      root.SamePrefix();
      Lookup.MatchesGood(root.model, a);
      ghost var all := Lookup.Matches(root.model, a);
      var stride: StrideTable := root;
      matches := new Option<Lookup.Match>[16](_ => None);
      count := 0;
      ghost var met: seq<Lookup.Match> := [];
      while true
        invariant stride.Valid() && T.WellFormed(stride.model) && stride.repr <= root.repr && matches !in root.repr
        invariant stride.prefix == stride.model.prefix && stride.prefix.addr.v6 == a.v6
        invariant count == |met| <= stride.prefix.bits / 8 && count <= 16 == matches.Length
        invariant forall i | 0 <= i < count :: matches[i] == Some(met[i])
        invariant all == met + Lookup.Matches(stride.model, a)
        decreases stride.repr
      {
        Lookup.MatchesStep(stride.model, a);
        var b := a.octets[stride.prefix.bits / 8];
        stride.Slot(b);
        var route := stride.entries[HostIndex(b)];
        var child := stride.children[b];
        ghost var own := if route.Some? then [Lookup.Match(stride.prefix, route.value)] else [];
        ghost var rest := if child == null then [] else Lookup.Matches(child.model, a);
        assert all == (met + own) + rest by { assert met + (own + rest) == (met + own) + rest; }
        met := met + own;
        if route.Some? {
          matches[count] := Some(Lookup.Match(stride.prefix, route.value));
          count := count + 1;
        }
        if child == null {
          break;
        }
        stride := child;
      }
    }

    /** Longest-prefix match: descend optimistically, then take the innermost match that really contains the address. */
    method Get(a: IpAddr) returns (value: Option<V>)
      requires Valid() && ValidAddr(a)
      ensures value == S.Get(State(), a)
    {
      hide S.Valid, T.WellFormed, Contains, Lookup.Matches, StrideTable.Valid;
      LiveRoute(a);
      var matches, count := CollectMatches(Root(a.v6), a);
      ghost var met := Lookup.Matches(Root(a.v6).model, a);
      assert met[..count] == met;
      var i := count;
      while i > 0
        invariant 0 <= i <= count
        invariant Lookup.LastContaining(met, a) == Lookup.LastContaining(met[..i], a)
      {
        i := i - 1;
        var m := matches[i].value;
        assert met[..i + 1][..i] == met[..i];
        if Contains(m.prefix, a) {
          return values[m.route];
        }
      }
      value := None;
    }

    /** A route the lookup finds has a live slot. */
    lemma LiveRoute(a: IpAddr)
      requires Valid() && ValidAddr(a)
      ensures T.WellFormed(Root(a.v6).model) && Root(a.v6).model.prefix.addr.v6 == a.v6
      ensures forall m | m in Lookup.Matches(Root(a.v6).model, a) :: ValidPrefix(m.prefix)
      ensures var r := Lookup.LastContaining(Lookup.Matches(Root(a.v6).model, a), a);
              r.Some? ==> r.value < |values| && values[r.value].Some?
    {
      hide S.Indexes, S.Slotted;
      var s := State();
      var t := Root(a.v6).model;
      S.RootReady(s, a.v6);
      Lookup.OptimisticDescent(t, a);
      var k := Lookup.GetIsLongest(t, a.octets);
      if Lookup.Get(t, a.octets).Some? {
        var p := S.KeyOfPrefix(s, a.v6, k);
        S.LiveSlot(s, p);
      }
    }

    /** The value of exactly this prefix. */
    method GetPrefix(prefix: IpPrefix) returns (value: Option<V>)
      requires Valid() && ValidPrefix(prefix)
      ensures value == if Masked(prefix) in S.Contents(State()) then Some(S.Contents(State())[Masked(prefix)]) else None
    {
      hide S.Indexes, Masked;
      var p := Masked(prefix);
      value := if p in routes then values[routes[p]] else None;
    }

    method Len() returns (n: nat)
      requires Valid()
      ensures n == |S.Contents(State())|
    {
      S.ContentsSize(State());
      n := |routes|;
    }

    method NumStrides() returns (n: nat)
      requires Valid()
      ensures n <= 2 + 2 * |routes|
      ensures n == Canonical.NumStrides(v4.model) + Canonical.NumStrides(v6.model)
      ensures n == |Canonical.StemSet(v4.model)| + |Canonical.StemSet(v6.model)|
    {
      hide Canonical.StemSet;
      S.StridesLinear(State());
      var a := v4.NumStrides();
      var b := v6.NumStrides();
      n := a + b;
    }

    // ----- whole histories -----

    /** One operation of a history. */
    method Apply(op: S.Op<V>)
      requires Valid() && S.ValidOp(op)
      modifies this, v4.repr, v6.repr
      ensures Valid() && State() == S.Step(old(State()), op)
      ensures fresh(v4.repr - old(v4.repr)) && fresh(v6.repr - old(v6.repr))
    {
      hide S.Valid, S.Insert, S.Delete, StrideTable.Valid;
      match op {
        case InsertOp(prefix, value) =>
          var _ := Insert(prefix, value);
        case DeleteOp(prefix) =>
          var _ := Delete(prefix);
        case ClearOp =>
          Clear();
      }
    }

    /** The mutable table after any history is the table on values after it. */
    static method Replay(ops: seq<S.Op<V>>) returns (t: RoutingTable<V>)
      requires S.ValidOps(ops)
      ensures fresh(t) && t.Valid() && t.State() == S.Run(ops)
    {
      hide S.Valid, S.Step, S.Run, S.ValidOp, StrideTable.Valid, RoutingTable.Valid;
      t := new RoutingTable<V>();
      var none: seq<S.Op<V>> := [];
      S.RunStart<V>();
      var i := 0;
      assert ops[..0] == none;
      while i < |ops|
        invariant 0 <= i <= |ops| && S.ValidOps(ops[..i])
        invariant fresh(t) && fresh(t.v4.repr) && fresh(t.v6.repr)
        invariant t.Valid() && t.State() == S.Run(ops[..i])
      {
        assert ops[..i + 1] == ops[..i] + [ops[i]];
        S.RunMore(ops[..i], ops[i]);
        t.Apply(ops[i]);
        i := i + 1;
      }
      assert ops[..i] == ops;
    }

    /** Longest-prefix match on the mutable table after any history. */
    static method LookUpAfter(ops: seq<S.Op<V>>, a: IpAddr) returns (value: Option<V>)
      requires S.ValidOps(ops) && ValidAddr(a)
      ensures forall p | p in S.RunMap(ops) :: ValidPrefix(p)
      ensures S.NaiveGet(S.RunMap(ops), a, value)
    {
      hide S.Valid, S.Run, S.RunMap, S.NaiveGet, S.Get, RoutingTable.Valid;
      var t := Replay(ops);
      value := t.Get(a);
      S.LookupAfterHistory(ops, a);
    }
  }
}
