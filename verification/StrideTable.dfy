/**
  The stride tables as they are kept in memory: arrays of entries and children updated in place.
  Every method is proved against the function of the same name on trie values.
 */
module StrideTables {
  import opened Common
  import opened Stride
  import opened Prefix
  import T = Trie
  import Canonical

  class StrideTable {
    var prefix: IpPrefix
    const entries: array<Option<RouteId>>
    const children: array<StrideTable?>
    var routeRefs: nat
    var childRefs: nat

    /** The trie this table and everything below it stands for. */
    ghost var model: T.Trie
    /** Every object of this table and the tables below it. */
    ghost var repr: set<object>

    ghost predicate Valid()
      reads this, repr
      ensures Valid() ==> {this, entries, children} <= repr
      decreases repr
    {
      && Own()
      && (forall b | 0 <= b < T.CHILD_COUNT && children[b] != null ::
            Owns(children[b]) && children[b].Valid() && model.children[b] == Some(children[b].model))
      && (forall b | 0 <= b < T.CHILD_COUNT && children[b] == null :: model.children[b] == None)
      && (forall a, b | 0 <= a < b < T.CHILD_COUNT && children[a] != null && children[b] != null ::
            children[a].repr !! children[b].repr)
    }

    /** The table's own arrays and counters match its model. */
    ghost predicate Own()
      reads this, repr
    {
      && {this, entries, children} <= repr
      && entries.Length == ENTRY_COUNT && children.Length == T.CHILD_COUNT
      && (forall b | 0 <= b < T.CHILD_COUNT && children[b] != null :: children[b] in repr)
      && model.prefix == prefix && model.entries == entries[..]
      && |model.children| == T.CHILD_COUNT
      && model.routeRefs == routeRefs && model.childRefs == childRefs
    }

    /** A child's objects lie inside this table's, away from its own arrays. */
    ghost predicate Owns(c: StrideTable)
      reads this, c
    {
      && c.repr < repr
      && {this, entries, children} !! c.repr
    }

    lemma SamePrefix()
      requires Valid()
      ensures prefix == model.prefix && routeRefs == model.routeRefs
    {
    }

    /** What a valid table shows of itself and of one slot. */
    lemma Slot(b: byte)
      requires Valid()
      ensures entries.Length == ENTRY_COUNT && children.Length == T.CHILD_COUNT
      ensures prefix == model.prefix && entries[..] == model.entries && |model.children| == T.CHILD_COUNT
      ensures children[b] == null ==> T.ChildAt(model, b) == None
      ensures children[b] != null ==>
                && children[b].Valid() && Owns(children[b])
                && children[b].prefix == children[b].model.prefix && T.ChildAt(model, b) == Some(children[b].model)
    {
      if children[b] != null { assert Owns(children[b]); children[b].SamePrefix(); }
    }

    constructor (prefix: IpPrefix)
      ensures Valid() && fresh(repr)
      ensures model == T.NewStride(prefix)
    {
      this.prefix := prefix;
      entries := new Option<RouteId>[ENTRY_COUNT](_ => None);
      children := new StrideTable?[T.CHILD_COUNT](_ => null);
      routeRefs := 0;
      childRefs := 0;
      model := T.NewStride(prefix);
      new;
      repr := {this, entries, children};
      assert entries[..] == NoEntries();
    }

    // ----- routes of one stride -----

    /** The in-place cut-off walk. */
    method Allot(index: nat, from: Option<RouteId>, to: Option<RouteId>)
      requires entries.Length == ENTRY_COUNT && 1 <= index < ENTRY_COUNT
      modifies entries
      ensures entries[..] == Stride.Allot(old(entries[..]), index, from, to)
      decreases ENTRY_COUNT - index
    {
      if entries[index] != from {
        return;
      }
      entries[index] := to;
      assert entries[..] == old(entries[..])[index := to];
      if index >= FIRST_HOST_INDEX {
        return;
      }
      Allot(2 * index, from, to);
      Allot(2 * index + 1, from, to);
    }

    predicate HasPrefixRootedAt(index: nat)
      requires entries.Length == ENTRY_COUNT && 1 <= index < ENTRY_COUNT
      reads entries
    {
      entries[index].Some? && (index == 1 || entries[index / 2] != entries[index])
    }

    method Insert(addr: byte, len: nat, route: RouteId) returns (previous: Option<RouteId>)
      requires Valid() && len <= 8
      modifies this, entries
      ensures Valid() && repr == old(repr)
      ensures (model, previous) == T.StrideInsert(old(model), addr, len, route)
    {
      var index := PrefixIndex(addr, len);
      previous := if HasPrefixRootedAt(index) then entries[index] else None;
      if previous.None? {
        routeRefs := routeRefs + 1;
      }
      var before := entries[index];
      Allot(index, before, Some(route));
      model := T.StrideInsert(model, addr, len, route).0;
      Untouched(old(repr));
    }

    method Delete(addr: byte, len: nat) returns (removed: Option<RouteId>)
      requires Valid() && len <= 8
      requires routeRefs > 0 || !Rooted(model.entries, PrefixIndex(addr, len))
      modifies this, entries
      ensures Valid() && repr == old(repr)
      ensures (model, removed) == T.StrideDelete(old(model), addr, len)
      ensures removed.None? ==> unchanged(this) && unchanged(entries)
    {
      var index := PrefixIndex(addr, len);
      if !HasPrefixRootedAt(index) {
        return None;
      }
      removed := entries[index];
      var parent := if index == 1 then None else entries[index / 2];
      Allot(index, removed, parent);
      routeRefs := routeRefs - 1;
      model := T.StrideDelete(model, addr, len).0;
      Untouched(old(repr));
    }

    /** Changing a table's own entries and counters leaves the tables below it as they were. */
    twostate lemma Untouched(before: set<object>)
      requires old(Valid()) && repr == old(repr) == before
      requires forall o: object | o in repr && o != this && o != entries :: unchanged(o)
      ensures forall b | 0 <= b < T.CHILD_COUNT && children[b] != null ::
                children[b] == old(children[b]) && Owns(children[b]) && children[b].Valid()
    {
    }

    // ----- child management -----

    /** `c` may hang in slot `b`: it shares nothing with the table's arrays or its other children. */
    ghost predicate Fits(b: nat, c: StrideTable)
      requires Valid()
      reads this, repr, c
    {
      && {this, entries, children} !! c.repr
      && (forall a | 0 <= a < T.CHILD_COUNT && a != b && children[a] != null :: children[a].repr !! c.repr)
    }

    method SetChild(b: byte, c: StrideTable)
      requires Valid() && c.Valid() && Fits(b, c)
      modifies this, children
      ensures Valid() && repr == old(repr) + c.repr
      ensures model == T.SetChild(old(model), b, c.model)
    {
      if children[b] == null {
        childRefs := childRefs + 1;
      }
      children[b] := c;
      model := T.SetChild(model, b, c.model);
      repr := repr + c.repr;
      SlotChanged(b);
      assert c.Valid() && c.model == old(c.model) && c.repr == old(c.repr);
      hide Valid;
      assert Own();
      assert Owns(c);
      SetSlot(b, c);
    }

    /** A table whose own fields are in order, with a fitting child in slot `b` and the others as recorded. */
    lemma SetSlot(b: byte, c: StrideTable)
      requires Own() && children[b] == c && c.Valid() && Owns(c) && model.children[b] == Some(c.model)
      requires forall a | 0 <= a < T.CHILD_COUNT && a != b && children[a] != null ::
                 && Owns(children[a]) && children[a].Valid() && model.children[a] == Some(children[a].model)
                 && children[a].repr !! c.repr
      requires forall a | 0 <= a < T.CHILD_COUNT && a != b && children[a] == null :: model.children[a] == None
      requires forall a, d | 0 <= a < d < T.CHILD_COUNT && a != b && d != b
                             && children[a] != null && children[d] != null ::
                 children[a].repr !! children[d].repr
      ensures Valid()
    {
    }

    /** Changing a table's own counters and one slot leaves the tables in the other slots as they were. */
    twostate lemma SlotChanged(b: byte)
      requires old(Valid()) && old(repr) <= repr
      requires forall o: object | o in old(repr) && o != this && o != children :: unchanged(o)
      requires forall a | 0 <= a < T.CHILD_COUNT && a != b :: children[a] == old(children[a])
      ensures forall a | 0 <= a < T.CHILD_COUNT && a != b && children[a] != null ::
                Owns(children[a]) && children[a].Valid() && children[a].repr == old(children[a].repr)
                  && children[a].model == old(children[a].model)
    {
    }

    method DeleteChild(b: byte)
      requires Valid() && T.Counted(model)
      modifies this, children
      ensures Valid() && repr == old(repr)
      ensures model == T.DeleteChild(old(model), b)
    {
      if children[b] != null {
        T.ChildUpdatesCounted(model, b, model);
        childRefs := childRefs - 1;
      }
      children[b] := null;
      model := T.DeleteChild(model, b);
      SlotChanged(b);
    }

    method FirstOccupied() returns (b: byte)
      requires Valid() && T.Counted(model) && childRefs > 0
      ensures children.Length == T.CHILD_COUNT && children[b] != null
      ensures b == T.FirstSlot(model.children, 0)
    {
      T.FirstSlotExists(model);
      var i := 0;
      while children[i] == null
        invariant 0 <= i < T.CHILD_COUNT
        invariant T.FirstSlot(model.children, 0) == T.FirstSlot(model.children, i)
        decreases T.CHILD_COUNT - i
      {
        i := i + 1;
      }
      b := i;
    }

    /** Takes the first child out of a table that is about to be discarded; its counter stays as it was. */
    method TakeFirstChild() returns (c: StrideTable)
      requires Valid() && T.Counted(model) && childRefs > 0
      modifies this, children
      ensures Valid() && repr == old(repr)
      ensures c.Valid() && Owns(c)
      ensures var b := T.FirstSlot(old(model).children, 0);
              && Some(c.model) == T.ChildAt(old(model), b)
              && model == old(model).(children := old(model).children[b := None])
    {
      var b := FirstOccupied();
      c := children[b];
      assert Owns(c);
      children[b] := null;
      model := model.(children := model.children[b := None]);
      SlotChanged(b);
    }

    /** Everything but the record of the child in slot `b` is in order. */
    ghost predicate ValidBut(b: byte)
      reads this, children, repr
      reads if children.Length == T.CHILD_COUNT && children[b] != null then {children[b]} + children[b].repr else {}
    {
      && Own()
      && children[b] != null && children[b].Valid() && {this, entries, children} !! children[b].repr
      && (forall a | 0 <= a < T.CHILD_COUNT && a != b && children[a] != null ::
            && Owns(children[a]) && children[a].Valid() && model.children[a] == Some(children[a].model)
            && children[a].repr !! children[b].repr)
      && (forall a | 0 <= a < T.CHILD_COUNT && children[a] == null :: model.children[a] == None)
      && (forall a, c | 0 <= a < c < T.CHILD_COUNT && a != b && c != b && children[a] != null && children[c] != null ::
            children[a].repr !! children[c].repr)
      && model.children[b].Some?
    }

    /** After a change inside the child in slot `b` only, everything else is still in order. */
    twostate lemma ChildChanged(b: byte)
      requires old(Valid()) && old(children[b]) != null && old(allocated(children[b]))
      requires forall o: object | o in old(repr) && o !in old(children[b].repr) :: unchanged(o)
      requires children[b].Valid() && fresh(children[b].repr - old(children[b].repr))
      ensures ValidBut(b)
    {
      forall a | 0 <= a < T.CHILD_COUNT && a != b && children[a] != null
        ensures Owns(children[a]) && children[a].Valid() && model.children[a] == Some(children[a].model)
        ensures children[a].repr !! children[b].repr && children[a].repr == old(children[a].repr)
      {
        assert old(children[a].repr) !! old(children[b].repr);
        assert children[a] == old(children[a]);
        assert unchanged(children[a]);
        assert forall o: object | o in old(children[a].repr) :: unchanged(o);
      }
    }

    /** Records what the child in slot `b` has become. */
    ghost method Refresh(b: byte)
      requires ValidBut(b)
      modifies this`model, this`repr
      ensures Valid() && repr == old(repr) + children[b].repr
      ensures model == T.SetChild(old(model), b, children[b].model)
    {
      var c := children[b];
      model := T.SetChild(model, b, c.model);
      repr := repr + c.repr;
      assert c.Valid();
      assert forall a | 0 <= a < T.CHILD_COUNT && a != b && children[a] != null :: children[a].Valid();
    }

    // ----- insertion -----

    /** A new table that holds just this prefix. */
    static method Leaf(p: IpPrefix, route: RouteId) returns (c: StrideTable)
      requires ValidPrefix(p)
      ensures c.Valid() && fresh(c.repr) && c.model == T.Leaf(p, route)
    {
      c := new StrideTable(AtByteBoundary(p, FinalByte(p) * 8));
      var _ := c.Insert(p.addr.octets[FinalByte(p)], FinalBits(p), route);
    }

    /** A new table between a parent and its old child, holding the child and the new prefix. */
    static method Split(c: StrideTable, p: IpPrefix, route: RouteId) returns (mid: StrideTable)
      requires c.Valid() && ValidPrefix(c.prefix) && ValidPrefix(p) && c.prefix.addr.v6 == p.addr.v6
      requires c.prefix.bits != 0 && p.bits != 0
      ensures mid.Valid() && fresh(mid.repr - c.repr) && mid.model == T.Split(c.model, p, route)
    {
      hide T.StrideInsert, T.Leaf, SplitStrides;
      var (stem, x, y) := ComputeSplit(c.prefix, p);
      mid := new StrideTable(stem);
      mid.SetChild(x, c);
      if p.bits - stem.bits <= 8 {
        var _ := mid.Insert(p.addr.octets[FinalByte(p)], FinalBits(p), route);
      } else {
        var leaf := Leaf(p, route);
        mid.SetChild(y, leaf);
      }
    }

    /** A descent: each table after the first is the child of the one before in the slot recorded for it. */
    static ghost predicate Linked(path: seq<StrideTable>, slots: seq<byte>)
      reads *
    {
      && |path| == |slots| + 1
      && (forall i | 0 <= i < |path| :: path[i].Valid() && path[i].repr <= path[0].repr)
      && (forall i | 0 <= i < |slots| ::
            path[i].children[slots[i]] == path[i + 1] && path[i + 1].repr <= path[i].repr && path[i].Owns(path[i + 1]))
    }

    static ghost function Models(path: seq<StrideTable>): (r: seq<T.Trie>)
      reads path
      ensures |r| == |path| && forall i | 0 <= i < |path| :: r[i] == path[i].model
    {
      seq(|path|, i requires 0 <= i < |path| reads path => path[i].model)
    }

    /** One more step down. */
    static lemma Descend(path: seq<StrideTable>, slots: seq<byte>, b: byte, c: StrideTable)
      requires Linked(path, slots) && path[|path| - 1].children[b] == c
      ensures Linked(path + [c], slots + [b]) && c.Own()
      ensures c.repr < path[|path| - 1].repr && T.ChildAt(path[|path| - 1].model, b) == Some(c.model)
    {
      var last := path[|path| - 1];
      assert last.Owns(c) && c.Valid();
    }

    /** The descent of an insertion passes `t` towards `c`. */
    static ghost predicate InsertPasses(t: T.Trie, b: byte, c: T.Trie, p: IpPrefix) {
      && T.Below(t, p)
      && p.bits - t.prefix.bits > 8
      && b == p.addr.octets[t.prefix.bits / 8]
      && T.ChildAt(t, b) == Some(c)
      && T.Below(c, p)
      && StrictlyContains(c.prefix, p)
    }

    /** The last step of an insertion: into this table, into a new child, or into a split. */
    method InsertHere(p: IpPrefix, route: RouteId) returns (previous: Option<RouteId>)
      requires Valid() && T.Below(model, p)
      requires p.bits - prefix.bits <= 8
               || (var c := T.ChildAt(model, p.addr.octets[prefix.bits / 8]);
                   c.None? || (ValidPrefix(c.value.prefix) && !StrictlyContains(c.value.prefix, p)))
      modifies repr
      ensures Valid() && fresh(repr - old(repr))
      ensures forall o: object | o in old(repr) && o !in {this, entries, children} :: unchanged(o)
      ensures (model, previous) == T.InsertBelow(old(model), p, route)
    {
      hide T.GoodRoutes, Masked, Contains, T.GoodChild, T.StrideInsert, T.Split, T.Leaf;
      if p.bits - prefix.bits <= 8 {
        previous := Insert(p.addr.octets[FinalByte(p)], FinalBits(p), route);
        return;
      }
      previous := None;
      var b := p.addr.octets[prefix.bits / 8];
      var child := children[b];
      if child == null {
        var leaf := Leaf(p, route);
        SetChild(b, leaf);
      } else {
        T.BelowChild(model, p, b, child.model);
        var mid := Split(child, p, route);
        SetChild(b, mid);
      }
    }

    /** Walks down to the table where the insertion takes place. */
    method InsertionPoint(p: IpPrefix)
      returns (current: StrideTable, ghost path: seq<StrideTable>, ghost slots: seq<byte>)
      requires Valid() && T.Below(model, p)
      ensures Linked(path, slots) && path[0] == this && path[|slots|] == current
      ensures T.Below(current.model, p)
      ensures forall i | 0 <= i < |slots| :: InsertPasses(path[i].model, slots[i], path[i + 1].model, p)
      ensures p.bits - current.prefix.bits <= 8
              || (var c := T.ChildAt(current.model, p.addr.octets[current.prefix.bits / 8]);
                  c.None? || (ValidPrefix(c.value.prefix) && !StrictlyContains(c.value.prefix, p)))
    {
      hide T.Below, T.WellFormed, Contains, StrictlyContains, Valid;
      SamePrefix();
      current, path, slots := this, [this], [];
      while p.bits - current.prefix.bits > 8
        invariant Linked(path, slots) && path[0] == this && path[|slots|] == current
        invariant T.Below(current.model, p) && current.prefix == current.model.prefix
        invariant forall i | 0 <= i < |slots| :: InsertPasses(path[i].model, slots[i], path[i + 1].model, p)
        decreases current.repr
      {
        BelowSlot(current.model, p);
        var b := p.addr.octets[current.prefix.bits / 8];
        current.Slot(b);
        var child := current.children[b];
        if child == null {
          return;
        }
        Descend(path, slots, b, child);
        T.BelowChild(current.model, p, b, child.model);
        if !StrictlyContains(child.prefix, p) {
          return;
        }
        path, slots := path + [child], slots + [b];
        current := child;
      }
    }

    method InsertInto(p: IpPrefix, route: RouteId) returns (previous: Option<RouteId>)
      requires Valid() && T.WellFormed(model) && prefix.bits == 0
      requires ValidPrefix(p) && IsMasked(p) && p.addr.v6 == prefix.addr.v6
      modifies repr
      ensures Valid() && fresh(repr - old(repr))
      ensures (model, previous) == T.InsertInto(old(model), p, route)
    {
      hide T.Below, IsMasked, T.WellFormed, StrictlyContains, T.StrideInsert, T.SetChild, T.InsertBelow, Valid,
           ValidBut;
      if p.bits == 0 {
        previous := Insert(0, 0, route);
        return;
      }
      BelowRoot(p);
      var current, path, slots := InsertionPoint(p);
      previous := current.InsertHere(p, route);
      ghost var i := |slots|;
      while i > 0
        invariant 0 <= i <= |slots|
        invariant path[i].Valid() && fresh(path[i].repr - old(path[i].repr))
        invariant forall o: object | o in old(repr) && o !in old(path[i].repr) :: unchanged(o)
        invariant T.Below(old(path[i].model), p)
                  && (path[i].model, previous) == T.InsertBelow(old(path[i].model), p, route)
      {
        i := i - 1;
        path[i].ChildChanged(slots[i]);
        PassedInsert(old(path[i].model), slots[i], old(path[i + 1].model), p, route);
        path[i].Refresh(slots[i]);
      }
    }

    /** A prefix below a table has an octet to choose a slot by. */
    static lemma BelowSlot(t: T.Trie, p: IpPrefix)
      requires T.Below(t, p)
      ensures ValidPrefix(p) && t.prefix.bits / 8 < |p.addr.octets|
    {
      hide T.GoodRoutes, Masked, Contains, T.GoodChild;
    }

    lemma BelowRoot(p: IpPrefix)
      requires Valid() && T.WellFormed(model) && prefix.bits == 0
      requires ValidPrefix(p) && IsMasked(p) && p.addr.v6 == prefix.addr.v6 && p.bits > 0
      ensures T.Below(model, p)
    {
    }

    static lemma PassedInsert(t: T.Trie, b: byte, c: T.Trie, p: IpPrefix, route: RouteId)
      requires InsertPasses(t, b, c, p)
      ensures T.Below(t, p) && T.Below(c, p) && |t.children| == T.CHILD_COUNT
      ensures T.InsertBelow(t, p, route) ==
              (T.SetChild(t, b, T.InsertBelow(c, p, route).0), T.InsertBelow(c, p, route).1)
    {
      hide T.GoodRoutes, Masked, Contains, T.GoodChild, T.SetChild;
    }

    // ----- deletion -----

    /** The descent of a deletion passes `t` towards `c`. */
    static ghost predicate DeletePasses(t: T.Trie, b: byte, c: T.Trie, p: IpPrefix) {
      && Deletable(t, p)
      && p.bits - t.prefix.bits > 8
      && b == p.addr.octets[t.prefix.bits / 8]
      && T.ChildAt(t, b) == Some(c)
      && Deletable(c, p)
    }

    static ghost predicate Deletable(t: T.Trie, p: IpPrefix) {
      T.WellFormed(t) && ValidPrefix(p) && p.addr.v6 == t.prefix.addr.v6 && t.prefix.bits <= p.bits
    }

    static lemma PassedDelete(t: T.Trie, b: byte, c: T.Trie, p: IpPrefix)
      requires DeletePasses(t, b, c, p)
      ensures Deletable(t, p) && Deletable(c, p) && |t.children| == T.CHILD_COUNT
      ensures T.DeleteBelow(c, p).1.None? ==> T.DeleteBelow(t, p) == (t, None)
      ensures var (c', removed, path) := T.DeleteAlong(c, p);
              removed.Some? ==> T.DeleteAlong(t, p) == (T.SetChild(t, b, c'), removed, [b] + path)
    {
      hide T.GoodRoutes, Masked, Contains, T.GoodChild, T.SetChild, T.CleanChild;
    }

    static lemma {:induction false} NothingRemoved(models: seq<T.Trie>, slots: seq<byte>, p: IpPrefix)
      requires |models| == |slots| + 1
      requires forall i | 0 <= i < |slots| :: DeletePasses(models[i], slots[i], models[i + 1], p)
      requires Deletable(models[|slots|], p) && T.DeleteBelow(models[|slots|], p) == (models[|slots|], None)
      ensures Deletable(models[0], p) && T.DeleteBelow(models[0], p) == (models[0], None)
    {
      hide T.DeleteBelow, Deletable;
      if slots != [] {
        NothingRemoved(models[1..], slots[1..], p);
        PassedDelete(models[0], slots[0], models[1], p);
      }
    }

    static lemma RootedCounted(t: T.Trie, i: nat)
      requires T.WellFormed(t) && 1 <= i < ENTRY_COUNT && Rooted(t.entries, i)
      ensures t.routeRefs > 0
    {
      assert i in RootsOf(t.entries);
    }

    /** Walks down to the table that would hold the prefix, recording the slots taken. */
    method DeletionPoint(p: IpPrefix)
      returns (found: bool, current: StrideTable, path: seq<byte>, ghost tables: seq<StrideTable>)
      requires Valid() && Deletable(model, p)
      ensures Linked(tables, path) && tables[0] == this && tables[|path|] == current
      ensures Deletable(current.model, p)
      ensures forall i | 0 <= i < |path| :: DeletePasses(tables[i].model, path[i], tables[i + 1].model, p)
      ensures found ==>
                p.bits - current.prefix.bits <= 8 && ValidPrefix(current.prefix) && StrictlyContains(current.prefix, p)
      ensures !found ==> T.DeleteBelow(current.model, p) == (current.model, None)
    {
      hide T.GoodRoutes, Masked, Contains, T.GoodChild, T.CleanChild, T.StrideDelete;
      current, path, tables := this, [], [this];
      while p.bits - current.prefix.bits > 8
        invariant Linked(tables, path) && tables[0] == this && tables[|path|] == current
        invariant Deletable(current.model, p)
        invariant forall i | 0 <= i < |path| :: DeletePasses(tables[i].model, path[i], tables[i + 1].model, p)
        decreases current.repr
      {
        var b := p.addr.octets[current.prefix.bits / 8];
        var child := current.children[b];
        if child == null {
          found := false;
          return;
        }
        Descend(tables, path, b, child);
        T.SlotChild(current.model, b, child.model);
        if p.bits < child.prefix.bits {
          found := false;
          return;
        }
        path, tables := path + [b], tables + [child];
        current := child;
      }
      found := StrictlyContains(current.prefix, p);
    }

    /** Where the descent ends, deletion is deletion from one stride. */
    static lemma AtDeletionPoint(t: T.Trie, p: IpPrefix)
      requires Deletable(t, p) && p.bits - t.prefix.bits <= 8 && ValidPrefix(t.prefix) && StrictlyContains(t.prefix, p)
      ensures t.prefix.bits <= p.bits && t.prefix.bits / 8 < |p.addr.octets|
      ensures var (t', removed) := T.StrideDelete(t, p.addr.octets[t.prefix.bits / 8], p.bits - t.prefix.bits);
              T.DeleteAlong(t, p) == (t', removed, []) && T.DeleteBelow(t, p) == (t', removed)
      ensures t.routeRefs > 0
              || !Rooted(t.entries, PrefixIndex(p.addr.octets[t.prefix.bits / 8], p.bits - t.prefix.bits))
    {
      hide T.GoodRoutes, Masked, Contains, T.GoodChild, T.StrideDelete;
      DeletableCounts(t, p.addr.octets[t.prefix.bits / 8], p.bits - t.prefix.bits);
    }

    static lemma DeletableCounts(t: T.Trie, addr: byte, len: nat)
      requires T.WellFormed(t) && len <= 8
      ensures t.routeRefs > 0 || !Rooted(t.entries, PrefixIndex(addr, len))
    {
      if Rooted(t.entries, PrefixIndex(addr, len)) { RootedCounted(t, PrefixIndex(addr, len)); }
    }

    /** The last step of a deletion: out of this table. */
    method DeleteHere(p: IpPrefix) returns (removed: Option<RouteId>)
      requires Valid() && Deletable(model, p) && p.bits - prefix.bits <= 8 && ValidPrefix(prefix)
               && StrictlyContains(prefix, p)
      modifies this, entries
      ensures Valid() && repr == old(repr)
      ensures removed.None? ==> unchanged(this) && unchanged(entries) && T.DeleteBelow(model, p) == (model, None)
      ensures removed.Some? ==> Removal(old(model), p, model, removed, [])
    {
      hide T.WellFormed, StrictlyContains, T.StrideDelete, T.DeleteBelow, T.DeleteAlong, Valid;
      SamePrefix();
      AtDeletionPoint(model, p);
      removed := Delete(p.addr.octets[prefix.bits / 8], p.bits - prefix.bits);
    }

    /** The first pass: removes the route and records the slots on the way to it. */
    method RemoveRoute(p: IpPrefix) returns (removed: Option<RouteId>, path: seq<byte>)
      requires Valid() && Deletable(model, p)
      modifies repr
      ensures Valid() && repr <= old(repr)
      ensures removed.None? ==> model == old(model) && T.DeleteBelow(old(model), p) == (old(model), None)
      ensures removed.Some? ==> (model, removed, path) == T.DeleteAlong(old(model), p)
    {
      hide Deletable, DeletePasses, Removal, StrictlyContains, T.StrideDelete, T.SetChild, T.DeleteBelow,
           T.DeleteAlong, Valid, ValidBut, Own;
      removed := None;
      var found, current, route, tables := DeletionPoint(p);
      path := route;
      if found {
        removed := current.DeleteHere(p);
      }
      if removed.None? {
        NothingRemoved(Models(tables), path, p);
        return;
      }
      ghost var i := |path|;
      assert path[i..] == [];
      while i > 0
        invariant 0 <= i <= |path|
        invariant tables[i].Valid() && tables[i].repr <= old(tables[i].repr)
        invariant forall o: object | o in old(repr) && o !in old(tables[i].repr) :: unchanged(o)
        invariant Removal(old(tables[i].model), p, tables[i].model, removed, path[i..])
      {
        i := i - 1;
        tables[i].ChildChanged(path[i]);
        PassedRemoval(old(tables[i].model), path, i, old(tables[i + 1].model), p, tables[i + 1].model, removed);
        tables[i].Refresh(path[i]);
      }
      assert path[0..] == path;
      RemovalMeans(old(model), p, model, removed, path);
    }

    /** What the first pass leaves of a trie: the tree without the route, the route, and the slots on the way to it. */
    static ghost predicate Removal(t: T.Trie, p: IpPrefix, t': T.Trie, removed: Option<RouteId>, path: seq<byte>) {
      Deletable(t, p) && (t', removed, path) == T.DeleteAlong(t, p)
    }

    static lemma RemovalMeans(t: T.Trie, p: IpPrefix, t': T.Trie, removed: Option<RouteId>, path: seq<byte>)
      requires Deletable(t, p) && Removal(t, p, t', removed, path)
      ensures (t', removed, path) == T.DeleteAlong(t, p)
    {
    }

    static lemma PassedRemoval(t: T.Trie, path: seq<byte>, i: nat, c: T.Trie, p: IpPrefix, c': T.Trie,
                               removed: Option<RouteId>)
      requires i < |path| && DeletePasses(t, path[i], c, p) && Removal(c, p, c', removed, path[i + 1..])
               && removed.Some?
      ensures |t.children| == T.CHILD_COUNT && Removal(t, p, T.SetChild(t, path[i], c'), removed, path[i..])
    {
      hide T.WellFormed, T.ChildAt, T.DeleteAlong, T.DeleteBelow, T.SetChild;
      PassedDelete(t, path[i], c, p);
      assert path[i..] == [path[i]] + path[i + 1..];
    }

    method DeleteFrom(p: IpPrefix) returns (removed: Option<RouteId>)
      requires Valid() && T.WellFormed(model) && prefix.bits == 0
      requires ValidPrefix(p) && p.addr.v6 == prefix.addr.v6
      modifies repr
      ensures Valid() && repr <= old(repr)
      ensures (model, removed) == T.DeleteFrom(old(model), p)
    {
      hide T.WellFormed, T.StrideDelete, T.DeleteBelow, T.DeleteAlong, T.CleanPath;
      if p.bits == 0 {
        DeletableCounts(model, 0, 0);
        removed := Delete(0, 0);
        return;
      }
      T.TwoPasses(model, p);
      var path;
      removed, path := RemoveRoute(p);
      if removed.Some? {
        CleanEmptyStrides(path);
      }
    }

    /** Drops or replaces the child in slot `b` when it neither holds a route nor branches. */
    method CleanSlot(b: byte)
      requires Valid() && T.Counted(model) && children[b] != null && T.Counted(children[b].model)
      modifies repr
      ensures Valid() && repr <= old(repr)
      ensures model == T.CleanChild(old(model), b, old(children[b].model))
    {
      hide T.DeleteChild;
      var child := children[b];
      if child.routeRefs != 0 || child.childRefs > 1 {
        assert model.children[b := Some(child.model)] == model.children;
        return;
      }
      if child.childRefs == 0 {
        DeleteChild(b);
      } else {
        Bypass(b);
      }
    }

    /** Hangs the first child of the child in slot `b` in its place. */
    method Bypass(b: byte)
      requires Valid() && children[b] != null && T.Counted(children[b].model) && children[b].childRefs > 0
      modifies repr
      ensures Valid() && repr <= old(repr)
      ensures var child := old(children[b].model);
              var first := T.ChildAt(child, T.FirstSlot(child.children, 0));
              first.Some? && model == T.SetChild(old(model), b, first.value)
    {
      hide Valid, ValidBut, T.Counted, T.FirstSlot, T.SetChild;
      Slot(b);
      var child := children[b];
      var replacement := child.TakeFirstChild();
      ChildChanged(b);
      Refresh(b);
      Apart(b, replacement);
      SetChild(b, replacement);
      SetTwice(old(model), b, child.model, replacement.model);
    }

    /** What lies inside the child in slot `b` is apart from everything else below this table. */
    lemma Apart(b: byte, c: StrideTable)
      requires Valid() && children[b] != null && c.repr <= children[b].repr
      ensures Fits(b, c)
    {
      assert Owns(children[b]);
    }

    static lemma SetTwice(t: T.Trie, b: byte, c: T.Trie, d: T.Trie)
      requires |t.children| == T.CHILD_COUNT
      ensures T.SetChild(T.SetChild(t, b, c), b, d) == T.SetChild(t, b, d)
    {
      assert t.children[b := Some(c)][b := Some(d)] == t.children[b := Some(d)];
    }

    /** Compacts the tables along a recorded path, innermost first. */
    method CleanEmptyStrides(path: seq<byte>)
      requires Valid() && T.FollowsPath(model, path)
      modifies repr
      ensures Valid() && repr <= old(repr)
      ensures model == T.CleanPath(old(model), path)
      decreases |path|
    {
      hide T.SetChild, T.DeleteChild, T.CleanChild;
      if path == [] {
        return;
      }
      var b := path[0];
      var child := children[b];
      ghost var before := model;
      T.CleanPathCounted(child.model, path[1..]);
      child.CleanEmptyStrides(path[1..]);
      ChildChanged(b);
      Refresh(b);
      T.ChildUpdatesCounted(before, b, child.model);
      T.CleanOverwrites(before, b, child.model, child.model);
      CleanSlot(b);
    }

    /** Counts this table and those below it. */
    method NumStrides() returns (n: nat)
      requires Valid()
      ensures n == Canonical.NumStrides(model)
      decreases repr
    {
      n := 1;
      var b := 0;
      while b < T.CHILD_COUNT
        invariant 0 <= b <= T.CHILD_COUNT
        invariant n + Canonical.NumStridesFrom(model, b) == Canonical.NumStrides(model)
      {
        if children[b] != null {
          assert Owns(children[b]);
          var below := children[b].NumStrides();
          n := n + below;
        }
        b := b + 1;
      }
    }
  }
}
