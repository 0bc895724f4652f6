/** The persisted list of audit events: merging, deduplicating, sorting and removing. */
module AuditStore {
  import opened Common

  /** An event awaiting delivery. */
  datatype Transaction = Transaction(id: string, retries: nat, action: string, details: string, time: int)

  function Ids(ts: seq<Transaction>): set<string> {
    if ts == [] then {} else {ts[0].id} + Ids(ts[1..])
  }

  predicate UniqueIds(ts: seq<Transaction>) {
    ts == [] || (ts[0].id !in Ids(ts[1..]) && UniqueIds(ts[1..]))
  }

  predicate Ordered(ts: seq<Transaction>) {
    ts == [] || ((forall t | t in ts[1..] :: ts[0].time <= t.time) && Ordered(ts[1..]))
  }

  lemma {:induction false} IdsMember(ts: seq<Transaction>, id: string)
    ensures id in Ids(ts) <==> exists t :: t in ts && t.id == id
  {
    if ts != [] {
      IdsMember(ts[1..], id);
      assert ts == [ts[0]] + ts[1..];
      if exists t :: t in ts && t.id == id {
        var t :| t in ts && t.id == id;
        assert t == ts[0] || t in ts[1..];
      }
    }
  }

  lemma {:induction false} IdsAppend(a: seq<Transaction>, b: seq<Transaction>)
    ensures Ids(a + b) == Ids(a) + Ids(b)
  {
    if a == [] {
      assert a + b == b;
    } else {
      assert (a + b)[1..] == a[1..] + b;
      IdsAppend(a[1..], b);
    }
  }

  lemma {:induction false} UniqueAppend(a: seq<Transaction>, b: seq<Transaction>)
    ensures UniqueIds(a + b) <==> UniqueIds(a) && UniqueIds(b) && Ids(a) !! Ids(b)
  {
    if a == [] {
      assert a + b == b;
    } else {
      assert (a + b)[1..] == a[1..] + b;
      UniqueAppend(a[1..], b);
      IdsAppend(a[1..], b);
    }
  }

  /** With distinct ids, an id names one transaction. */
  lemma {:induction false} SameTransaction(ts: seq<Transaction>, t: Transaction, u: Transaction)
    requires UniqueIds(ts) && t in ts && u in ts && t.id == u.id
    ensures t == u
  {
    IdsMember(ts[1..], t.id);
    if t in ts[1..] && u in ts[1..] { SameTransaction(ts[1..], t, u); }
  }

  // ----- removal -----

  /** The transactions whose id is not in `ids`, in order. */
  function Without(ts: seq<Transaction>, ids: set<string>): seq<Transaction> {
    if ts == [] then []
    else if ts[0].id in ids then Without(ts[1..], ids)
    else [ts[0]] + Without(ts[1..], ids)
  }

  lemma {:induction false} WithoutProperties(ts: seq<Transaction>, ids: set<string>)
    ensures forall t :: t in Without(ts, ids) <==> t in ts && t.id !in ids
    ensures Ids(Without(ts, ids)) == Ids(ts) - ids
    ensures UniqueIds(ts) ==> UniqueIds(Without(ts, ids))
    ensures Ordered(ts) ==> Ordered(Without(ts, ids))
  {
    if ts != [] {
      WithoutProperties(ts[1..], ids);
      assert ts == [ts[0]] + ts[1..];
    }
  }

  lemma {:induction false} WithoutAbsent(ts: seq<Transaction>, ids: set<string>, id: string)
    requires id !in Ids(ts)
    ensures Without(ts, ids + {id}) == Without(ts, ids)
  {
    if ts != [] { WithoutAbsent(ts[1..], ids, id); }
  }

  // ----- deduplication -----

  /** Keeps the first transaction of each id not already seen. */
  function Dedup(ts: seq<Transaction>, seen: set<string>): seq<Transaction> {
    if ts == [] then []
    else if ts[0].id in seen then Dedup(ts[1..], seen)
    else [ts[0]] + Dedup(ts[1..], seen + {ts[0].id})
  }

  /** Deduplication keeps one transaction of every id, and it is the first. */
  lemma {:induction false} DedupProperties(ts: seq<Transaction>, seen: set<string>)
    ensures UniqueIds(Dedup(ts, seen))
    ensures Ids(Dedup(ts, seen)) == Ids(ts) - seen
    ensures forall t | t in Dedup(ts, seen) :: t in ts
  {
    if ts != [] {
      assert ts == [ts[0]] + ts[1..];
      DedupProperties(ts[1..], if ts[0].id in seen then seen else seen + {ts[0].id});
    }
  }

  /** A front with distinct ids is kept whole; of the rest only other ids survive. */
  lemma {:induction false} DedupFront(front: seq<Transaction>, back: seq<Transaction>, seen: set<string>)
    requires UniqueIds(front) && Ids(front) !! seen && UniqueIds(back)
    ensures Dedup(front + back, seen) == front + Without(back, seen + Ids(front))
  {
    if front == [] {
      assert front + back == back;
      assert seen + Ids(front) == seen;
      DedupIsWithout(back, seen);
    } else {
      assert (front + back)[1..] == front[1..] + back;
      DedupFront(front[1..], back, seen + {front[0].id});
      assert seen + {front[0].id} + Ids(front[1..]) == seen + Ids(front);
    }
  }

  lemma {:induction false} DedupIsWithout(ts: seq<Transaction>, seen: set<string>)
    requires UniqueIds(ts)
    ensures Dedup(ts, seen) == Without(ts, seen)
  {
    if ts != [] {
      if ts[0].id in seen {
        DedupIsWithout(ts[1..], seen);
      } else {
        DedupIsWithout(ts[1..], seen + {ts[0].id});
        WithoutAbsent(ts[1..], seen, ts[0].id);
      }
    }
  }

  // ----- sorting -----

  /** Puts `t` before the first transaction that is not earlier. */
  function InsertByTime(t: Transaction, ts: seq<Transaction>): seq<Transaction> {
    if ts == [] || t.time <= ts[0].time then [t] + ts else [ts[0]] + InsertByTime(t, ts[1..])
  }

  /** The stable sort by time. */
  function SortByTime(ts: seq<Transaction>): seq<Transaction> {
    if ts == [] then [] else InsertByTime(ts[0], SortByTime(ts[1..]))
  }

  /** The transactions of one moment, in order. */
  function AtTime(ts: seq<Transaction>, time: int): seq<Transaction> {
    if ts == [] then [] else (if ts[0].time == time then [ts[0]] else []) + AtTime(ts[1..], time)
  }

  lemma {:induction false} InsertByTimeProperties(t: Transaction, ts: seq<Transaction>)
    requires Ordered(ts)
    ensures forall u :: u in InsertByTime(t, ts) <==> u == t || u in ts
    ensures Ordered(InsertByTime(t, ts))
    ensures Ids(InsertByTime(t, ts)) == {t.id} + Ids(ts)
    ensures UniqueIds(ts) && t.id !in Ids(ts) ==> UniqueIds(InsertByTime(t, ts))
    ensures multiset(InsertByTime(t, ts)) == multiset{t} + multiset(ts)
  {
    if ts != [] {
      assert ts == [ts[0]] + ts[1..];
      if t.time > ts[0].time { InsertByTimeProperties(t, ts[1..]); }
    }
    assert ([t] + ts)[1..] == ts;
  }

  lemma {:induction false} InsertByTimeStable(t: Transaction, ts: seq<Transaction>, time: int)
    requires Ordered(ts)
    ensures AtTime(InsertByTime(t, ts), time) == (if t.time == time then [t] else []) + AtTime(ts, time)
  {
    if ts != [] && t.time > ts[0].time {
      InsertByTimeStable(t, ts[1..], time);
    } else {
      assert ([t] + ts)[1..] == ts;
    }
    if ts != [] && t.time == time && t.time > ts[0].time {
      assert ts[0].time != time;
    }
  }

  /** The sort orders by time, keeps every transaction, and keeps the order of equal times. */
  lemma {:induction false} SortByTimeProperties(ts: seq<Transaction>)
    ensures Ordered(SortByTime(ts))
    ensures multiset(SortByTime(ts)) == multiset(ts)
    ensures forall t :: t in SortByTime(ts) <==> t in ts
    ensures Ids(SortByTime(ts)) == Ids(ts)
    ensures UniqueIds(ts) ==> UniqueIds(SortByTime(ts))
    ensures forall time :: AtTime(SortByTime(ts), time) == AtTime(ts, time)
  {
    if ts != [] {
      SortByTimeProperties(ts[1..]);
      assert ts == [ts[0]] + ts[1..];
      InsertByTimeProperties(ts[0], SortByTime(ts[1..]));
      forall time ensures AtTime(SortByTime(ts), time) == AtTime(ts, time) {
        InsertByTimeStable(ts[0], SortByTime(ts[1..]), time);
      }
    }
  }

  // ----- what the logger writes -----

  function DeduplicateAndSort(ts: seq<Transaction>): seq<Transaction> {
    SortByTime(Dedup(ts, {}))
  }

  /** The filter over a growing set of seen ids, then the sort. */
  method ComputeDeduplicateAndSort(ts: seq<Transaction>) returns (r: seq<Transaction>)
    ensures r == DeduplicateAndSort(ts)
    ensures UniqueIds(r) && Ordered(r) && Ids(r) == Ids(ts)
  {
    var seen: set<string> := {};
    var deduped: seq<Transaction> := [];
    var i := 0;
    while i < |ts|
      invariant 0 <= i <= |ts|
      invariant Dedup(ts, {}) == deduped + Dedup(ts[i..], seen)
    {
      assert ts[i..][1..] == ts[i + 1..];
      if ts[i].id !in seen {
        deduped := deduped + [ts[i]];
        seen := seen + {ts[i].id};
      }
      i := i + 1;
    }
    assert deduped == Dedup(ts, {});
    r := SortByTime(deduped);
    DedupProperties(ts, {});
    SortByTimeProperties(deduped);
  }

  /** The store after transactions are appended to it. */
  function Append(ts: seq<Transaction>, store: seq<Transaction>): seq<Transaction> {
    if ts == [] then store else DeduplicateAndSort(ts + store)
  }

  /** The store after transactions are marked done. */
  function MarkDone(complete: seq<Transaction>, store: seq<Transaction>): seq<Transaction> {
    if complete == [] then store else Without(store, Ids(complete))
  }

  /** A proper store: one transaction per id, ordered by time. */
  predicate Proper(store: seq<Transaction>) {
    UniqueIds(store) && Ordered(store)
  }

  /** Appended transactions replace stored ones of the same id; every other stored one stays. */
  lemma AppendProperties(ts: seq<Transaction>, store: seq<Transaction>)
    requires UniqueIds(ts) && Proper(store)
    ensures Proper(Append(ts, store))
    ensures forall t :: t in Append(ts, store) <==> t in ts || (t in store && t.id !in Ids(ts))
    ensures Ids(Append(ts, store)) == Ids(ts) + Ids(store)
  {
    if ts != [] {
      DedupFront(ts, store, {});
      assert {} + Ids(ts) == Ids(ts);
      WithoutProperties(store, Ids(ts));
      SortByTimeProperties(Dedup(ts + store, {}));
      DedupProperties(ts + store, {});
      IdsAppend(ts, store);
    }
  }

  lemma MarkDoneProperties(complete: seq<Transaction>, store: seq<Transaction>)
    requires Proper(store)
    ensures Proper(MarkDone(complete, store))
    ensures forall t :: t in MarkDone(complete, store) <==> t in store && t.id !in Ids(complete)
    ensures Ids(MarkDone(complete, store)) == Ids(store) - Ids(complete)
  {
    WithoutProperties(store, Ids(complete));
  }
}
