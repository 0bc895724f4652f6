/**
  One 8-bit stride of the allotment routing table: a binary tree of 511 prefixes flattened
  into an array, where every position caches the route of its nearest routed ancestor.
 */
module Stride {
  import opened Common

  type RouteId = nat

  const FIRST_HOST_INDEX := 256
  const ENTRY_COUNT := 512

  /** The flattened tree: position 1 is the root, position i has children 2i and 2i+1. */
  type Entries = e: seq<Option<RouteId>> | |e| == ENTRY_COUNT witness seq(ENTRY_COUNT, _ => None)

  function NoEntries(): Entries {
    seq(ENTRY_COUNT, _ => None)
  }

  // ----- positions -----

  /** Position of the prefix made of the `len` leading bits of `addr`. */
  function PrefixIndex(addr: byte, len: nat): (i: nat)
    requires len <= 8
    ensures 1 <= i < ENTRY_COUNT
    ensures len >= 1 ==> i >= 2
  {
    BytePowers();
    addr / Pow2(8 - len) + Pow2(len)
  }

  function HostIndex(addr: byte): (i: nat)
    ensures FIRST_HOST_INDEX <= i < ENTRY_COUNT
  {
    addr + FIRST_HOST_INDEX
  }

  /** `top` is `i` or one of its ancestors. */
  predicate Under(top: nat, i: nat) {
    i == top || (i > top && Under(top, i / 2))
  }

  /** Number of leading bits that position `i` stands for. */
  function Depth(i: nat): nat {
    if i <= 1 then 0 else 1 + Depth(i / 2)
  }

  lemma {:induction false} UnderDepth(top: nat, i: nat)
    requires 1 <= top && Under(top, i)
    ensures Depth(top) <= Depth(i)
    ensures top != i ==> Depth(top) < Depth(i)
  {
    if i > top {
      UnderDepth(top, i / 2);
    }
  }

  lemma {:induction false} DepthRange(i: nat, d: nat)
    requires Pow2(d) <= i < Pow2(d + 1)
    ensures Depth(i) == d
  {
    if d > 0 {
      DepthRange(i / 2, d - 1);
    }
  }

  lemma Quotient(a: int, p: int, q: int)
    requires p >= 1 && q * p <= a < q * p + p
    ensures a / p == q
  {
    var d := a / p - q;
    assert d * p == a / p * p - q * p;
    assert -p < d * p < p;
    assert d >= 1 ==> d * p >= p;
    assert d <= -1 ==> d * p <= -p;
  }

  lemma DivTwice(i: nat, p: nat)
    requires p >= 1
    ensures (i / 2) / p == i / (2 * p)
  {
    var q := i / (2 * p);
    assert i == q * (2 * p) + i % (2 * p);
    assert q * (2 * p) == 2 * (q * p);
    Quotient(i / 2, p, q);
  }

  /** The ancestor `k` levels up is reached by `k` halvings. */
  lemma {:induction false} UnderShift(top: nat, i: nat, k: nat)
    requires top >= 1 && Depth(i) == Depth(top) + k
    ensures Under(top, i) <==> i / Pow2(k) == top
  {
    if k == 0 {
      if Under(top, i) { UnderDepth(top, i); }
    } else if i > top {
      UnderShift(top, i / 2, k - 1);
      DivTwice(i, Pow2(k - 1));
    } else if i < top {
      QuotientAtMost(i, Pow2(k));
    }
  }

  lemma QuotientAtMost(i: nat, p: nat)
    requires p >= 1
    ensures i / p <= i
  {
    var q := i / p;
    assert i == p * q + i % p;
    Grows(q, p - 1);
    assert p * q == q * (p - 1) + q;
  }

  lemma Grows(a: nat, b: nat)
    ensures a * b >= 0
  {
  }

  /** A prefix of one byte covers a host exactly when the two agree on its leading bits. */
  lemma PrefixIndexUnderHost(addr: byte, len: nat, host: byte)
    requires len <= 8
    ensures Under(PrefixIndex(addr, len), HostIndex(host)) <==> addr / Pow2(8 - len) == host / Pow2(8 - len)
    ensures Depth(PrefixIndex(addr, len)) == len
  {
    PrefixIndexRange(addr, len);
    PrefixIndexRange(host, 8);
    DepthRange(PrefixIndex(addr, len), len);
    DepthRange(HostIndex(host), 8);
    UnderShift(PrefixIndex(addr, len), HostIndex(host), 8 - len);
    HostShift(host, len);
  }

  lemma PrefixIndexRange(addr: byte, len: nat)
    requires len <= 8
    ensures Pow2(len) <= PrefixIndex(addr, len) < Pow2(len + 1)
    ensures PrefixIndex(addr, 8) == HostIndex(addr)
  {
    BytePowers();
    match len { case 0 => case 1 => case 2 => case 3 => case 4 => case 5 => case 6 => case 7 => case 8 => }
  }

  lemma HostShift(host: byte, len: nat)
    requires len <= 8
    ensures HostIndex(host) / Pow2(8 - len) == PrefixIndex(host, len)
  {
    BytePowers();
    match len { case 0 => case 1 => case 2 => case 3 => case 4 => case 5 => case 6 => case 7 => case 8 => }
  }

  // ----- what a stride stands for -----

  /** A stride stands for a set of routed positions; each route id is used once. */
  type Roots = map<nat, RouteId>

  ghost predicate ValidRoots(roots: Roots) {
    && (forall i | i in roots :: 1 <= i < ENTRY_COUNT)
    && (forall i, j | i in roots && j in roots && i != j :: roots[i] != roots[j])
  }

  /** The nearest ancestor-or-self of `i` in `keys`, or 0 when there is none. */
  function Nearest(keys: set<nat>, i: nat): (k: nat)
    ensures k == 0 || (k in keys && Under(k, i))
    ensures forall j | j in keys && j >= 1 && Under(j, i) :: k >= 1 && Under(j, k)
  {
    if i == 0 then 0 else if i in keys then i else Nearest(keys, i / 2)
  }

  /** The route a position must show: that of its nearest routed ancestor-or-self. */
  function Allotted(roots: Roots, i: nat): Option<RouteId> {
    var k := Nearest(roots.Keys, i);
    if k == 0 then None else if k in roots then Some(roots[k]) else None
  }

  /** `e` caches, at every position, exactly what `roots` allots to it. */
  ghost predicate Caches(e: Entries, roots: Roots) {
    && ValidRoots(roots)
    && e[0] == None
    && forall i | 1 <= i < ENTRY_COUNT :: e[i] == Allotted(roots, i)
  }

  /** A position is rooted when it has a route that its parent does not show. */
  predicate Rooted(e: Entries, i: nat)
    requires 1 <= i < ENTRY_COUNT
  {
    e[i].Some? && (i == 1 || e[i / 2] != e[i])
  }

  function RootsOf(e: Entries): Roots {
    map i: nat | 1 <= i < ENTRY_COUNT && Rooted(e, i) :: e[i].value
  }

  /** The cached array determines the routed positions: the local parent test recovers them exactly. */
  lemma CachesRoots(e: Entries, roots: Roots)
    requires Caches(e, roots)
    ensures RootsOf(e) == roots
  {
    forall i: nat | 1 <= i < ENTRY_COUNT
      ensures i in roots <==> Rooted(e, i)
      ensures i in roots ==> e[i] == Some(roots[i])
    {
      assert e[i] == Allotted(roots, i);
      if i > 1 {
        assert e[i / 2] == Allotted(roots, i / 2);
      }
    }
  }

  // ----- allotment -----

  /** Replaces `from` by `to` downwards from `i`, cutting off at the first position that shows something else. */
  function Allot(e: Entries, i: nat, from: Option<RouteId>, to: Option<RouteId>): Entries
    requires 1 <= i < ENTRY_COUNT
    decreases ENTRY_COUNT - i
  {
    if e[i] != from then e
    else if i >= FIRST_HOST_INDEX then e[i := to]
    else Allot(Allot(e[i := to], 2 * i, from, to), 2 * i + 1, from, to)
  }

  /** Every position from `i` down to `j` shows `v`. */
  predicate Shows(e: Entries, i: nat, v: Option<RouteId>, j: nat) {
    j < ENTRY_COUNT && e[j] == v && (j == i || (j > i && Shows(e, i, v, j / 2)))
  }

  lemma {:induction false} ShowsUnder(e: Entries, i: nat, v: Option<RouteId>, j: nat)
    requires Shows(e, i, v, j)
    ensures Under(i, j)
  {
    if j > i { ShowsUnder(e, i, v, j / 2); }
  }

  lemma {:induction false} ShowsSplit(e: Entries, i: nat, v: Option<RouteId>, j: nat)
    requires 1 <= i < FIRST_HOST_INDEX && j < ENTRY_COUNT && j != i
    ensures Shows(e, i, v, j) <==> e[i] == v && (Shows(e, 2 * i, v, j) || Shows(e, 2 * i + 1, v, j))
  {
    if j > i && j != 2 * i && j != 2 * i + 1 {
      ShowsSplit(e, i, v, j / 2);
    }
  }

  lemma {:induction false} ShowsFrame(e: Entries, f: Entries, i: nat, v: Option<RouteId>, j: nat)
    requires forall k | 0 <= k < ENTRY_COUNT && Under(i, k) :: e[k] == f[k]
    ensures Shows(e, i, v, j) <==> Shows(f, i, v, j)
  {
    if Shows(e, i, v, j) { ShowsUnder(e, i, v, j); }
    if Shows(f, i, v, j) { ShowsUnder(f, i, v, j); }
    if j > i { ShowsFrame(e, f, i, v, j / 2); }
  }

  lemma {:induction false} SiblingsApart(i: nat, j: nat)
    requires i >= 1
    ensures !(Under(2 * i, j) && Under(2 * i + 1, j))
    ensures Under(2 * i, j) || Under(2 * i + 1, j) ==> j != i
  {
    if j > 2 * i + 1 { SiblingsApart(i, j / 2); }
  }

  /** The cut-off walk rewrites exactly the positions connected to `i` through `from`. */
  lemma {:induction false} AllotRegion(e: Entries, i: nat, from: Option<RouteId>, to: Option<RouteId>)
    requires 1 <= i < ENTRY_COUNT
    ensures forall j | 0 <= j < ENTRY_COUNT ::
              Allot(e, i, from, to)[j] == if Shows(e, i, from, j) then to else e[j]
    decreases ENTRY_COUNT - i
  {
    if e[i] != from {
      forall j | 0 <= j < ENTRY_COUNT ensures !Shows(e, i, from, j) { ShowsTop(e, i, from, j); }
    } else if i >= FIRST_HOST_INDEX {
      forall j | 0 <= j < ENTRY_COUNT && j != i ensures !Shows(e, i, from, j) {}
    } else {
      var e1 := e[i := to];
      var e2 := Allot(e1, 2 * i, from, to);
      AllotRegion(e1, 2 * i, from, to);
      AllotRegion(e2, 2 * i + 1, from, to);
      forall j | 0 <= j < ENTRY_COUNT
        ensures Allot(e2, 2 * i + 1, from, to)[j] == if Shows(e, i, from, j) then to else e[j]
      {
        AllotBranch(e, e1, e2, i, from, to, j);
      }
    }
  }

  lemma {:induction false} ShowsTop(e: Entries, i: nat, v: Option<RouteId>, j: nat)
    requires i < ENTRY_COUNT
    ensures Shows(e, i, v, j) ==> e[i] == v
  {
    if j > i { ShowsTop(e, i, v, j / 2); }
  }

  lemma AllotBranch(e: Entries, e1: Entries, e2: Entries, i: nat, from: Option<RouteId>, to: Option<RouteId>, j: nat)
    requires 1 <= i < FIRST_HOST_INDEX && e[i] == from && e1 == e[i := to] && j < ENTRY_COUNT
    requires forall k | 0 <= k < ENTRY_COUNT :: e2[k] == if Shows(e1, 2 * i, from, k) then to else e1[k]
    ensures (if Shows(e2, 2 * i + 1, from, j) then to else e2[j]) == if Shows(e, i, from, j) then to else e[j]
  {
    forall k | 0 <= k < ENTRY_COUNT
      ensures Under(2 * i, k) ==> e1[k] == e[k]
      ensures Under(2 * i + 1, k) ==> e2[k] == e[k]
    {
      SiblingsApart(i, k);
      if Shows(e1, 2 * i, from, k) { ShowsUnder(e1, 2 * i, from, k); }
    }
    ShowsFrame(e1, e, 2 * i, from, j);
    ShowsFrame(e2, e, 2 * i + 1, from, j);
    SiblingsApart(i, j);
    if Shows(e, 2 * i, from, j) { ShowsUnder(e, 2 * i, from, j); }
    if Shows(e, 2 * i + 1, from, j) { ShowsUnder(e, 2 * i + 1, from, j); }
    if j != i { ShowsSplit(e, i, from, j); }
  }

  /** The positions connected to `i` through its own route are those whose nearest root would be `i`. */
  lemma {:induction false} RegionOf(e: Entries, roots: Roots, i: nat, j: nat)
    requires Caches(e, roots) && 1 <= i < ENTRY_COUNT && 1 <= j < ENTRY_COUNT
    ensures Shows(e, i, e[i], j) <==> Nearest(roots.Keys + {i}, j) == i
    ensures Nearest(roots.Keys + {i}, j) == i && j != i ==> j !in roots && e[j] == e[i]
    ensures Nearest(roots.Keys + {i}, j) != i ==> Nearest(roots.Keys + {i}, j) == Nearest(roots.Keys, j)
  {
    assert e[j] == Allotted(roots, j) && e[i] == Allotted(roots, i);
    if j < i {
      NearestBelow(roots.Keys, i, j);
    } else if j > i {
      RegionOf(e, roots, i, j / 2);
      assert e[j / 2] == Allotted(roots, j / 2);
    }
  }

  lemma {:induction false} NearestBelow(keys: set<nat>, i: nat, j: nat)
    requires j < i
    ensures Nearest(keys + {i}, j) == Nearest(keys, j)
  {
    if j > 0 { NearestBelow(keys, i, j / 2); }
  }

  /** Routing position `i` by an id no other position uses. */
  function InsertEntries(e: Entries, i: nat, r: RouteId): Entries
    requires 1 <= i < ENTRY_COUNT
  {
    Allot(e, i, e[i], Some(r))
  }

  /** Unrouting position `i`: its region falls back to what the parent shows. */
  function DeleteEntries(e: Entries, i: nat): Entries
    requires 1 <= i < ENTRY_COUNT
  {
    Allot(e, i, e[i], if i == 1 then None else e[i / 2])
  }

  /** Inserting under a fresh id caches exactly the extended set of roots. */
  lemma InsertCaches(e: Entries, roots: Roots, i: nat, r: RouteId)
    requires Caches(e, roots) && 1 <= i < ENTRY_COUNT
    requires forall j | j in roots && j != i :: roots[j] != r
    ensures Caches(InsertEntries(e, i, r), roots[i := r])
  {
    var roots' := roots[i := r];
    assert roots'.Keys == roots.Keys + {i};
    AllotRegion(e, i, e[i], Some(r));
    forall j | 1 <= j < ENTRY_COUNT
      ensures InsertEntries(e, i, r)[j] == Allotted(roots', j)
    {
      RegionOf(e, roots, i, j);
      assert e[j] == Allotted(roots, j);
    }
  }

  /** Deleting a root caches exactly the remaining roots. */
  lemma DeleteCaches(e: Entries, roots: Roots, i: nat)
    requires Caches(e, roots) && i in roots
    ensures Caches(DeleteEntries(e, i), roots - {i})
  {
    var roots' := roots - {i};
    assert roots.Keys + {i} == roots.Keys;
    AllotRegion(e, i, e[i], if i == 1 then None else e[i / 2]);
    forall j | 1 <= j < ENTRY_COUNT
      ensures DeleteEntries(e, i)[j] == Allotted(roots', j)
    {
      RegionOf(e, roots, i, j);
      NearestWithout(roots.Keys, i, j);
      assert roots'.Keys == roots.Keys - {i};
      assert e[j] == Allotted(roots, j);
      if i > 1 { assert e[i / 2] == Allotted(roots, i / 2); }
    }
  }

  lemma {:induction false} NearestWithout(keys: set<nat>, i: nat, j: nat)
    requires i in keys && i >= 1
    ensures Nearest(keys - {i}, j) == if Nearest(keys, j) == i then Nearest(keys, i / 2) else Nearest(keys, j)
  {
    if j > 0 {
      if j == i {
        NearestStays(keys, i, i / 2);
      } else if j !in keys {
        NearestWithout(keys, i, j / 2);
      }
    }
  }

  lemma {:induction false} NearestStays(keys: set<nat>, i: nat, j: nat)
    requires j < i
    ensures Nearest(keys - {i}, j) == Nearest(keys, j)
  {
    if j > 0 { NearestStays(keys, i, j / 2); }
  }
}
