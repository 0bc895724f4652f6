/**
  The audit logger as a state machine: enqueuers, the starting thread, the flush worker and the final
  flush, cut into atomic steps where the program takes a lock or awaits. One flush runs at a time.
 */
module AuditMachine {
  import opened Common
  import opened AuditStore

  const BACKOFF_MIN := 500
  const BACKOFF_MAX := 10_000

  /** What one send came back with. */
  datatype Outcome = Delivered | RetryableError | PermanentError

  /** Where an enqueuing thread stands after its event was stored. */
  datatype Enqueuer = Stored | WillNotify

  datatype Start = NotBegun | TransportSet | Loaded(pending: bool) | Spawned(pending: bool) | Started | StartFailed

  /** The worker; `delay` is the retry timer in milliseconds. */
  datatype Worker = NotSpawned | Idle(delay: Option<nat>) | Busy(delay: Option<nat>) | Stopped

  datatype Flush =
    | NoFlush
    | Loading(final: bool)
    | Sending(final: bool, pending: seq<Transaction>, index: nat, complete: seq<Transaction>, unsent: seq<Transaction>)
    | Appending(final: bool, unsent: seq<Transaction>)

  datatype State = State(
    store: seq<Transaction>,
    hasTransport: bool,
    token: bool,
    cancelled: bool,
    start: Start,
    worker: Worker,
    flush: Flush,
    enqueuers: map<nat, Enqueuer>,
    // history
    accepted: set<string>,
    finished: set<string>,
    removed: set<string>,
    outcomes: map<string, nat>,
    disturbed: bool)

  datatype Action =
    | EnqueueStore(thread: nat, t: Transaction)
    | EnqueueCheck(thread: nat)
    | EnqueueNotify(thread: nat)
    | StartTransport
    | StartLoad
    | StartLoadFails
    | StartSpawn
    | StartNotify
    | RequestStop
    | WorkerReceive
    | WorkerTimer
    | WorkerCancelled
    | FinalFlush
    | FlushLoad
    | FlushLoadFails
    | Send(outcome: Outcome)
    | FlushCancelled
    | FinalTimeout
    | FlushMark
    | FlushMarkFails
    | FlushAppend
    | FlushAppendFails

  // ----- steps -----

  /** The worker when its flush ends: it arms its timer unless everything was completed. */
  function Rested(w: Worker, allDone: bool): Worker {
    if !w.Busy? then w
    else Idle(if allDone then None
              else if w.delay.None? then Some(BACKOFF_MIN)
              else Some(Min(2 * w.delay.value, BACKOFF_MAX)))
  }

  function End(s: State, allDone: bool): State {
    s.(flush := NoFlush, worker := Rested(s.worker, allDone))
  }

  function Count(s: State, id: string): nat {
    if id in s.outcomes then s.outcomes[id] else 0
  }

  /** Whether a failed send is kept for another attempt. */
  predicate Retained(limit: nat, t: Transaction, o: Outcome) {
    o == RetryableError && t.retries + 1 < limit
  }

  /** One send completes for the transaction at the cursor. */
  function Sent(limit: nat, s: State, o: Outcome): State
    requires s.flush.Sending? && s.flush.index < |s.flush.pending|
  {
    var f := s.flush;
    var t := f.pending[f.index];
    var counted := s.(outcomes := s.outcomes[t.id := Count(s, t.id) + 1]);
    if Retained(limit, t, o) then
      counted.(flush := f.(index := f.index + 1, unsent := f.unsent + [t.(retries := t.retries + 1)]))
    else
      counted.(flush := f.(index := f.index + 1, complete := f.complete + [t]), finished := s.finished + {t.id})
  }

  function Step(limit: nat, s: State, a: Action): Option<State> {
    match a
    case EnqueueStore(n, t) =>
      if n !in s.enqueuers && t.id !in s.accepted && t.retries == 0 then
        Some(s.(store := Append([t], s.store), enqueuers := s.enqueuers[n := Stored], accepted := s.accepted + {t.id}))
      else None
    case EnqueueCheck(n) =>
      if n in s.enqueuers && s.enqueuers[n] == Stored then
        Some(s.(enqueuers := if s.hasTransport then s.enqueuers[n := WillNotify] else s.enqueuers - {n}))
      else None
    case EnqueueNotify(n) =>
      if n in s.enqueuers && s.enqueuers[n] == WillNotify then
        Some(s.(enqueuers := s.enqueuers - {n}, token := s.token || !s.worker.Stopped?))
      else None
    case StartTransport =>
      if s.start == NotBegun && s.flush == NoFlush then Some(s.(hasTransport := true, start := TransportSet)) else None
    case StartLoad =>
      if s.start == TransportSet then Some(s.(start := Loaded(s.store != []))) else None
    case StartLoadFails =>
      if s.start == TransportSet then Some(s.(start := StartFailed)) else None
    case StartSpawn =>
      if s.start.Loaded? then Some(s.(worker := Idle(None), start := Spawned(s.start.pending))) else None
    case StartNotify =>
      if s.start.Spawned? then
        Some(s.(start := Started, token := s.token || (s.start.pending && !s.worker.Stopped?)))
      else None
    case RequestStop => Some(s.(cancelled := true))
    case WorkerReceive =>
      if s.worker.Idle? && s.token then
        Some(s.(token := false, worker := Busy(s.worker.delay), flush := Loading(false)))
      else None
    case WorkerTimer =>
      if s.worker.Idle? && s.worker.delay.Some? then
        Some(s.(worker := Busy(s.worker.delay), flush := Loading(false)))
      else None
    case WorkerCancelled =>
      if s.worker.Idle? && s.cancelled then Some(s.(worker := Stopped)) else None
    case FinalFlush =>
      if s.cancelled && s.flush == NoFlush
         && (s.worker == Stopped || (s.worker == NotSpawned && (s.start == NotBegun || s.start == StartFailed)))
      then Some(s.(flush := Loading(true)))
      else None
    case FlushLoad =>
      if s.flush.Loading? then
        if s.store == [] then Some(End(s, true))
        else if !s.hasTransport then Some(End(s, false))
        else Some(s.(flush := Sending(s.flush.final, s.store, 0, [], [])))
      else None
    case FlushLoadFails =>
      if s.flush.Loading? then Some(End(s, false)) else None
    case Send(o) =>
      if s.flush.Sending? && s.flush.index < |s.flush.pending| then Some(Sent(limit, s, o)) else None
    case FlushCancelled =>
      if s.flush.Sending? && s.flush.index < |s.flush.pending| && !s.flush.final && s.cancelled then
        var f := s.flush;
        Some(s.(flush := f.(index := |f.pending|, unsent := f.unsent + f.pending[f.index..])))
      else None
    case FinalTimeout =>
      if s.flush.Sending? && s.flush.final then Some(s.(flush := NoFlush, disturbed := true)) else None
    case FlushMark =>
      if s.flush.Sending? && s.flush.index == |s.flush.pending| then
        var f := s.flush;
        Some(s.(store := MarkDone(f.complete, s.store), removed := s.removed + Ids(f.complete),
                flush := Appending(f.final, f.unsent)))
      else None
    case FlushMarkFails =>
      if s.flush.Sending? && s.flush.index == |s.flush.pending| && s.flush.complete != [] then
        Some(End(s, false).(disturbed := true))
      else None
    case FlushAppend =>
      if s.flush.Appending? then
        Some(End(s.(store := Append(s.flush.unsent, s.store)), s.flush.unsent == []))
      else None
    case FlushAppendFails =>
      if s.flush.Appending? && s.flush.unsent != [] then Some(End(s, false).(disturbed := true)) else None
  }

  predicate Init(s: State) {
    && Proper(s.store)
    && s == State(s.store, false, false, false, NotBegun, NotSpawned, NoFlush, map[],
                  Ids(s.store), {}, {}, map[], false)
  }

  function Run(limit: nat, s: State, actions: seq<Action>): Option<State>
    decreases |actions|
  {
    if actions == [] then Some(s)
    else
      var s' := Step(limit, s, actions[0]);
      if s'.None? then None else Run(limit, s'.value, actions[1..])
  }

  // ----- no event is lost -----

  /** Ids already handled by the current flush. */
  function Handled(s: State): set<string> {
    match s.flush
    case Sending(_, _, _, complete, unsent) => Ids(complete) + Ids(unsent)
    case Appending(_, unsent) => Ids(unsent)
    case _ => {}
  }

  ghost predicate GoodFlush(s: State) {
    match s.flush
    case Sending(_, pending, index, complete, unsent) =>
      && index <= |pending| && UniqueIds(pending)
      && (forall t | t in pending :: t in s.store)
      && UniqueIds(complete) && UniqueIds(unsent) && Ids(complete) !! Ids(unsent)
      && Ids(complete) + Ids(unsent) == Ids(pending[..index])
      && Ids(complete) <= s.finished
      && AtLeast(unsent, s.store)
    case Appending(_, unsent) => UniqueIds(unsent) && Ids(unsent) <= Ids(s.store) && AtLeast(unsent, s.store)
    case _ => true
  }

  /** Every copy about to be re-appended has at least the retry count of the stored copy it replaces. */
  ghost predicate AtLeast(unsent: seq<Transaction>, store: seq<Transaction>) {
    forall u, t | u in unsent && t in store && u.id == t.id :: u.retries >= t.retries
  }

  ghost predicate OneFlusher(s: State) {
    && (s.worker.Busy? <==> s.flush != NoFlush && !s.flush.final)
    && (s.flush != NoFlush && s.flush.final ==> s.worker.NotSpawned? || s.worker.Stopped?)
    && (s.flush != NoFlush && s.worker.NotSpawned? ==> s.start.NotBegun? || s.start.StartFailed?)
    && (s.worker.NotSpawned? <==> !s.start.Spawned? && !s.start.Started?)
    && (s.hasTransport <==> !s.start.NotBegun?)
  }

  /** Every accepted event is stored or has its final outcome; what was removed is finished and gone. */
  ghost predicate Conserved(s: State) {
    && Proper(s.store)
    && Ids(s.store) <= s.accepted
    && s.accepted <= Ids(s.store) + s.finished
    && s.finished <= s.accepted
    && s.removed <= s.finished
    && s.removed !! Ids(s.store)
    && GoodFlush(s)
    && OneFlusher(s)
  }

  lemma StoreOne(t: Transaction, store: seq<Transaction>)
    requires Proper(store) && t.id !in Ids(store)
    ensures Proper(Append([t], store)) && Ids(Append([t], store)) == Ids(store) + {t.id}
    ensures forall u :: u in Append([t], store) <==> u == t || u in store
  {
    assert Ids([t]) == {t.id} && UniqueIds([t]) by { assert [t][1..] == []; }
    AppendProperties([t], store);
    forall u | u in store ensures u.id != t.id { IdsMember(store, u.id); }
  }

  lemma ConservedEnqueue(limit: nat, s: State, n: nat, t: Transaction)
    requires Conserved(s) && Step(limit, s, EnqueueStore(n, t)).Some?
    ensures Conserved(Step(limit, s, EnqueueStore(n, t)).value)
  {
    StoreOne(t, s.store);
    var s' := Step(limit, s, EnqueueStore(n, t)).value;
    assert t.id !in Ids(s.store);
    if s.flush.Sending? || s.flush.Appending? {
      forall u | u in s.flush.unsent ensures u.id != t.id { IdsMember(s.flush.unsent, u.id); HandledAccepted(s, u.id); }
    }
  }

  lemma HandledAccepted(s: State, id: string)
    requires Conserved(s) && id in Handled(s)
    ensures id in s.accepted
  {
    match s.flush
    case Sending(_, pending, index, _, _) =>
      PrefixIds(pending, index);
      IdsMember(pending, id);
      var t :| t in pending && t.id == id;
      IdsMember(s.store, id);
    case Appending(_, _) =>
  }

  lemma IdsEmpty(ts: seq<Transaction>)
    ensures Ids(ts) == {} <==> ts == []
  {
  }

  lemma PrefixIds(ts: seq<Transaction>, n: nat)
    requires n <= |ts|
    ensures Ids(ts) == Ids(ts[..n]) + Ids(ts[n..])
  {
    assert ts == ts[..n] + ts[n..];
    IdsAppend(ts[..n], ts[n..]);
  }

  /** The transaction at the cursor has not been handled yet. */
  lemma CursorFresh(s: State)
    requires Conserved(s) && s.flush.Sending? && s.flush.index < |s.flush.pending|
    ensures var t := s.flush.pending[s.flush.index];
            && t in s.store && t.id in Ids(s.store) && t.id !in Handled(s)
            && Ids(s.flush.pending[..s.flush.index + 1]) == Ids(s.flush.pending[..s.flush.index]) + {t.id}
  {
    var f := s.flush;
    var t := f.pending[f.index];
    var before, rest := f.pending[..f.index], f.pending[f.index..];
    assert f.pending == before + rest;
    UniqueAppend(before, rest);
    assert f.pending[..f.index + 1] == before + [t];
    IdsAppend(before, [t]);
    assert Ids([t]) == {t.id} by { assert [t][1..] == []; }
    IdsMember(s.store, t.id);
  }

  lemma AppendOne(ts: seq<Transaction>, t: Transaction)
    ensures Ids(ts + [t]) == Ids(ts) + {t.id}
    ensures UniqueIds(ts) && t.id !in Ids(ts) ==> UniqueIds(ts + [t])
  {
    assert Ids([t]) == {t.id} && UniqueIds([t]) by { assert [t][1..] == []; }
    IdsAppend(ts, [t]);
    UniqueAppend(ts, [t]);
  }

  lemma ConservedSend(limit: nat, s: State, o: Outcome)
    requires Conserved(s) && Step(limit, s, Send(o)).Some?
    ensures Conserved(Step(limit, s, Send(o)).value)
  {
    hide Proper, Ids, UniqueIds, GoodFlush;
    CursorFresh(s);
    if Retained(limit, s.flush.pending[s.flush.index], o) {
      RetainedFlush(limit, s, o);
    } else {
      CompletedFlush(limit, s, o);
    }
  }

  lemma RetainedFlush(limit: nat, s: State, o: Outcome)
    requires Conserved(s) && s.flush.Sending? && s.flush.index < |s.flush.pending|
    requires Retained(limit, s.flush.pending[s.flush.index], o)
    ensures GoodFlush(Sent(limit, s, o))
  {
    hide Proper, Ids, UniqueIds, OneFlusher, Retained;
    var f := s.flush;
    var t := f.pending[f.index];
    var u := t.(retries := t.retries + 1);
    CursorFresh(s);
    AppendOne(f.unsent, u);
    ProperUnique(s.store);
    forall x | x in s.store && x.id == u.id ensures u.retries >= x.retries { SameTransaction(s.store, x, t); }
  }

  lemma CompletedFlush(limit: nat, s: State, o: Outcome)
    requires Conserved(s) && s.flush.Sending? && s.flush.index < |s.flush.pending|
    requires !Retained(limit, s.flush.pending[s.flush.index], o)
    ensures GoodFlush(Sent(limit, s, o))
  {
    hide Proper, Ids, UniqueIds, OneFlusher, Retained, AtLeast;
    CursorFresh(s);
    AppendOne(s.flush.complete, s.flush.pending[s.flush.index]);
  }

  lemma ProperUnique(store: seq<Transaction>)
    requires Proper(store)
    ensures UniqueIds(store)
  {
  }

  lemma ConservedCancel(limit: nat, s: State)
    requires Conserved(s) && Step(limit, s, FlushCancelled).Some?
    ensures Conserved(Step(limit, s, FlushCancelled).value)
  {
    hide Proper, Ids, UniqueIds;
    var f := s.flush;
    var before, rest := f.pending[..f.index], f.pending[f.index..];
    assert f.pending == before + rest;
    ProperUnique(s.store);
    UniqueAppend(before, rest);
    IdsAppend(before, rest);
    IdsAppend(f.unsent, rest);
    UniqueAppend(f.unsent, rest);
    assert f.pending[..|f.pending|] == f.pending;
    forall u, x | u in rest && x in s.store && u.id == x.id ensures u.retries >= x.retries {
      SameTransaction(s.store, u, x);
    }
  }

  lemma ConservedMark(limit: nat, s: State)
    requires Conserved(s) && Step(limit, s, FlushMark).Some?
    ensures Conserved(Step(limit, s, FlushMark).value)
  {
    var f := s.flush;
    MarkDoneProperties(f.complete, s.store);
    assert f.pending[..|f.pending|] == f.pending;
    PendingStored(s);
  }

  lemma PendingStored(s: State)
    requires Conserved(s) && s.flush.Sending?
    ensures Ids(s.flush.pending) <= Ids(s.store)
  {
    forall id | id in Ids(s.flush.pending) ensures id in Ids(s.store) {
      IdsMember(s.flush.pending, id);
      IdsMember(s.store, id);
    }
  }

  lemma ConservedAppend(limit: nat, s: State)
    requires Conserved(s) && Step(limit, s, FlushAppend).Some?
    ensures Conserved(Step(limit, s, FlushAppend).value)
  {
    hide Append, Ids, UniqueIds;
    AppendProperties(s.flush.unsent, s.store);
  }

  lemma ConservedLoad(limit: nat, s: State)
    requires Conserved(s) && Step(limit, s, FlushLoad).Some?
    ensures Conserved(Step(limit, s, FlushLoad).value)
  {
    hide Proper, Ids, UniqueIds;
    IdsEmpty(s.store[..0]);
    ProperUnique(s.store);
    NothingUnique();
  }

  lemma NothingUnique()
    ensures UniqueIds([]) && Ids([]) == {}
  {
  }

  /** Every step keeps every accepted event stored or finished. */
  lemma ConservedStep(limit: nat, s: State, a: Action)
    requires Conserved(s) && Step(limit, s, a).Some?
    ensures Conserved(Step(limit, s, a).value)
  {
    hide Step, Conserved;
    match a
    case EnqueueStore(n, t) => ConservedEnqueue(limit, s, n, t);
    case Send(o) => ConservedSend(limit, s, o);
    case FlushCancelled => ConservedCancel(limit, s);
    case FlushMark => ConservedMark(limit, s);
    case FlushAppend => ConservedAppend(limit, s);
    case FlushLoad => ConservedLoad(limit, s);
    case _ => ConservedQuiet(limit, s, a);
  }

  lemma ConservedQuiet(limit: nat, s: State, a: Action)
    requires Quiet(a) && Conserved(s) && Step(limit, s, a).Some?
    ensures Conserved(Step(limit, s, a).value)
  {
    hide Proper, Ids, UniqueIds, AtLeast;
  }

  // ----- attempts are bounded -----

  /** The sends counted for a transaction are covered by its retry count. */
  predicate Settled(limit: nat, s: State, t: Transaction) {
    Count(s, t.id) <= t.retries && (Count(s, t.id) > 0 ==> t.retries < limit)
  }

  function Unsent(s: State): seq<Transaction> {
    if s.flush.Sending? || s.flush.Appending? then s.flush.unsent else []
  }

  function Complete(s: State): seq<Transaction> {
    if s.flush.Sending? then s.flush.complete else []
  }

  /** Bookkeeping of attempts, as long as no store write failed and no final flush was cut off. */
  ghost predicate Attempted(limit: nat, s: State) {
    && s.outcomes.Keys <= s.accepted
    && (!s.disturbed ==>
          && s.finished <= s.removed + Ids(Complete(s))
          && (forall t | t in s.store && t.id !in Handled(s) :: Settled(limit, s, t))
          && (forall u | u in Unsent(s) :: Settled(limit, s, u))
          && (forall id | id in s.outcomes :: s.outcomes[id] <= Max(1, limit)))
  }

  /** Counting a send for `t` leaves every other transaction settled as it was. */
  lemma OthersSettled(limit: nat, s: State, s': State, id: string, x: Transaction)
    requires s'.outcomes == s.outcomes[id := Count(s, id) + 1] && x.id != id && Settled(limit, s, x)
    ensures Settled(limit, s', x)
  {
  }

  /** After a send, everything still awaiting the flush is settled. */
  lemma StillSettled(limit: nat, s: State, s': State, x: Transaction)
    requires Conserved(s) && Attempted(limit, s) && !s.disturbed
    requires s.flush.Sending? && s.flush.index < |s.flush.pending|
    requires var id := s.flush.pending[s.flush.index].id; s'.outcomes == s.outcomes[id := Count(s, id) + 1]
    requires x in s.flush.unsent || (x in s.store && x.id !in Handled(s) && x.id != s.flush.pending[s.flush.index].id)
    ensures Settled(limit, s', x)
  {
    hide Proper, Ids, UniqueIds, Ordered;
    CursorFresh(s);
    var id := s.flush.pending[s.flush.index].id;
    if x in s.flush.unsent { IdsMember(s.flush.unsent, x.id); }
    OthersSettled(limit, s, s', id, x);
  }

  lemma AttemptedSend(limit: nat, s: State, o: Outcome)
    requires Conserved(s) && Attempted(limit, s) && Step(limit, s, Send(o)).Some?
    ensures Attempted(limit, Step(limit, s, Send(o)).value)
  {
    hide Ids, Conserved, Settled, Handled, Unsent;
    var f := s.flush;
    var t := f.pending[f.index];
    var s' := Sent(limit, s, o);
    AppendOne(f.complete, t);
    assert t.id in s.accepted by { CursorAccepted(s); }
    if !s.disturbed {
      OneMoreOutcome(limit, s);
      SettledAfterSend(limit, s, o);
    }
  }

  lemma OneMoreOutcome(limit: nat, s: State)
    requires Conserved(s) && Attempted(limit, s) && !s.disturbed
    requires s.flush.Sending? && s.flush.index < |s.flush.pending|
    ensures Count(s, s.flush.pending[s.flush.index].id) + 1 <= Max(1, limit)
  {
    hide Ids, Conserved, Attempted;
    CursorSettled(limit, s);
  }

  lemma SettledAfterSend(limit: nat, s: State, o: Outcome)
    requires Conserved(s) && Attempted(limit, s) && !s.disturbed
    requires s.flush.Sending? && s.flush.index < |s.flush.pending|
    ensures var s' := Sent(limit, s, o);
            && (forall x | x in Unsent(s') :: Settled(limit, s', x))
            && (forall x | x in s'.store && x.id !in Handled(s') :: Settled(limit, s', x))
  {
    hide Ids, Conserved, Attempted;
    var f := s.flush;
    var t := f.pending[f.index];
    var s' := Sent(limit, s, o);
    CursorFresh(s);
    AppendOne(f.unsent, t.(retries := t.retries + 1));
    AppendOne(f.complete, t);
    assert Settled(limit, s, t) by { CursorSettled(limit, s); }
    forall x | x in Unsent(s') ensures Settled(limit, s', x) {
      if x in f.unsent { StillSettled(limit, s, s', x); }
    }
    forall x | x in s'.store && x.id !in Handled(s') ensures Settled(limit, s', x) {
      StillSettled(limit, s, s', x);
    }
  }

  lemma CursorSettled(limit: nat, s: State)
    requires Conserved(s) && Attempted(limit, s) && !s.disturbed
    requires s.flush.Sending? && s.flush.index < |s.flush.pending|
    ensures Settled(limit, s, s.flush.pending[s.flush.index])
  {
    hide Ids, Conserved, Settled;
    CursorFresh(s);
  }

  lemma CursorAccepted(s: State)
    requires Conserved(s) && s.flush.Sending? && s.flush.index < |s.flush.pending|
    ensures s.flush.pending[s.flush.index].id in s.accepted
  {
    CursorFresh(s);
  }

  lemma AttemptedEnqueue(limit: nat, s: State, n: nat, t: Transaction)
    requires Conserved(s) && Attempted(limit, s) && Step(limit, s, EnqueueStore(n, t)).Some?
    ensures Attempted(limit, Step(limit, s, EnqueueStore(n, t)).value)
  {
    hide Proper, Ids, UniqueIds, Ordered, Append;
    StoreOne(t, s.store);
    var s' := Step(limit, s, EnqueueStore(n, t)).value;
    if !s.disturbed {
      forall x | x in s'.store && x.id !in Handled(s') ensures Settled(limit, s', x) {
        if x in s.store { assert Settled(limit, s, x); }
      }
      forall x | x in Unsent(s') ensures Settled(limit, s', x) { assert Settled(limit, s, x); }
    }
  }

  lemma AttemptedCancel(limit: nat, s: State)
    requires Conserved(s) && Attempted(limit, s) && Step(limit, s, FlushCancelled).Some?
    ensures Attempted(limit, Step(limit, s, FlushCancelled).value)
  {
    hide Proper, Ids, UniqueIds, Ordered;
    var f := s.flush;
    var s' := Step(limit, s, FlushCancelled).value;
    IdsAppend(f.unsent, f.pending[f.index..]);
    if !s.disturbed {
      forall x | x in Unsent(s') ensures Settled(limit, s', x) {
        if x in f.unsent {
          assert Settled(limit, s, x);
        } else {
          LaterFresh(s, x);
          assert Settled(limit, s, x);
        }
      }
      forall x | x in s'.store && x.id !in Handled(s') ensures Settled(limit, s', x) {
        assert x.id !in Handled(s);
        assert Settled(limit, s, x);
      }
    }
  }

  lemma LaterFresh(s: State, t: Transaction)
    requires Conserved(s) && s.flush.Sending? && t in s.flush.pending[s.flush.index..]
    ensures t in s.store && t.id !in Handled(s)
  {
    var f := s.flush;
    assert f.pending == f.pending[..f.index] + f.pending[f.index..];
    UniqueAppend(f.pending[..f.index], f.pending[f.index..]);
    IdsMember(f.pending[f.index..], t.id);
    assert t in f.pending;
  }

  lemma AttemptedMark(limit: nat, s: State)
    requires Conserved(s) && Attempted(limit, s) && Step(limit, s, FlushMark).Some?
    ensures Attempted(limit, Step(limit, s, FlushMark).value)
  {
    var s' := Step(limit, s, FlushMark).value;
    MarkDoneProperties(s.flush.complete, s.store);
    assert Ids(Complete(s')) == {};
    hide Proper, Ids, UniqueIds, Ordered, MarkDone;
    if !s.disturbed {
      forall x | x in s'.store && x.id !in Handled(s') ensures Settled(limit, s', x) {
        assert x.id !in Handled(s);
        assert Settled(limit, s, x);
      }
      forall x | x in Unsent(s') ensures Settled(limit, s', x) { assert Settled(limit, s, x); }
    }
  }

  lemma AppendReady(s: State)
    requires Conserved(s) && s.flush.Appending?
    ensures UniqueIds(s.flush.unsent) && Proper(s.store)
  {
  }

  lemma AttemptedAppend(limit: nat, s: State)
    requires Conserved(s) && Attempted(limit, s) && Step(limit, s, FlushAppend).Some?
    ensures Attempted(limit, Step(limit, s, FlushAppend).value)
  {
    hide Conserved, Ids, UniqueIds, Append;
    var s' := Step(limit, s, FlushAppend).value;
    assert UniqueIds(s.flush.unsent) && Proper(s.store) by { AppendReady(s); }
    AppendProperties(s.flush.unsent, s.store);
    IdsEmpty(Complete(s));
    if !s.disturbed {
      forall x | x in s'.store ensures Settled(limit, s', x) {
        if x in s.flush.unsent { assert Settled(limit, s, x); } else { assert Settled(limit, s, x); }
      }
    }
  }

  lemma AttemptedLoad(limit: nat, s: State)
    requires Conserved(s) && Attempted(limit, s) && Step(limit, s, FlushLoad).Some?
    ensures Attempted(limit, Step(limit, s, FlushLoad).value)
  {
    hide Conserved, Ids, Attempted;
    NothingUnique();
    AttemptedSame(limit, s, Step(limit, s, FlushLoad).value);
  }

  /** A step that changes neither the store, the counts nor the flush changes nothing here. */
  lemma AttemptedSame(limit: nat, s: State, s': State)
    requires Attempted(limit, s)
    requires SameAttempts(s, s')
    ensures Attempted(limit, s')
  {
    if !s'.disturbed {
      forall x | x in s'.store && x.id !in Handled(s') ensures Settled(limit, s', x) { assert Settled(limit, s, x); }
      forall x | x in Unsent(s') ensures Settled(limit, s', x) { assert Settled(limit, s, x); }
    }
  }

  /** The steps that neither touch the store nor move the flush cursor. */
  predicate Quiet(a: Action) {
    !a.EnqueueStore? && !a.Send? && !a.FlushCancelled? && !a.FlushMark? && !a.FlushAppend? && !a.FlushLoad?
  }

  /** Nothing the attempt bookkeeping looks at has changed. */
  predicate SameAttempts(s: State, s': State) {
    && s'.store == s.store && s'.outcomes == s.outcomes && s'.accepted == s.accepted
    && s'.finished == s.finished && s'.removed == s.removed
    && (s'.disturbed || (s'.disturbed == s.disturbed && Complete(s') == Complete(s)
                         && Handled(s') == Handled(s) && Unsent(s') == Unsent(s)))
  }

  lemma QuietControl(limit: nat, s: State, a: Action)
    requires a.EnqueueCheck? || a.EnqueueNotify? || a.StartTransport? || a.StartLoad? || a.StartLoadFails?
             || a.StartSpawn? || a.StartNotify? || a.RequestStop? || a.WorkerCancelled?
    requires Step(limit, s, a).Some?
    ensures SameAttempts(s, Step(limit, s, a).value)
  {
    hide Ids;
    assert Step(limit, s, a).value.flush == s.flush;
  }

  lemma QuietFlush(limit: nat, s: State, a: Action)
    requires a.WorkerReceive? || a.WorkerTimer? || a.FinalFlush? || a.FlushLoadFails?
             || a.FinalTimeout? || a.FlushMarkFails? || a.FlushAppendFails?
    requires OneFlusher(s) && Step(limit, s, a).Some?
    ensures SameAttempts(s, Step(limit, s, a).value)
  {
    hide Ids;
  }

  lemma AttemptedStep(limit: nat, s: State, a: Action)
    requires Conserved(s) && Attempted(limit, s) && Step(limit, s, a).Some?
    ensures Attempted(limit, Step(limit, s, a).value)
  {
    hide Attempted, Step, Proper, GoodFlush, OneFlusher;
    if Quiet(a) {
      if a.WorkerReceive? || a.WorkerTimer? || a.FinalFlush? || a.FlushLoadFails?
         || a.FinalTimeout? || a.FlushMarkFails? || a.FlushAppendFails? {
        QuietFlush(limit, s, a);
      } else {
        QuietControl(limit, s, a);
      }
      AttemptedSame(limit, s, Step(limit, s, a).value);
    } else {
      match a
      case EnqueueStore(n, t) => AttemptedEnqueue(limit, s, n, t);
      case Send(o) => AttemptedSend(limit, s, o);
      case FlushCancelled => AttemptedCancel(limit, s);
      case FlushMark => AttemptedMark(limit, s);
      case FlushAppend => AttemptedAppend(limit, s);
      case FlushLoad => AttemptedLoad(limit, s);
    }
  }

  // ----- no lost wake-up -----

  /** Somebody has signalled the worker or is about to. */
  ghost predicate Signalled(s: State) {
    s.token || s.enqueuers != map[] || s.start == Spawned(true)
  }

  /** Ids the running flush has taken responsibility for. */
  function InFlight(s: State): set<string> {
    match s.flush
    case Sending(_, pending, _, _, _) => Ids(pending)
    case Appending(_, unsent) => Ids(unsent)
    case _ => {}
  }

  ghost predicate WakesUp(s: State) {
    && (s.worker.Idle? && s.worker.delay.None? && s.store != [] ==> Signalled(s))
    && (s.worker.Busy? && !s.flush.Loading? && !(Ids(s.store) <= InFlight(s)) ==> Signalled(s))
    && (s.start.Loaded? && s.store != [] ==> s.start.pending || s.token || s.enqueuers != map[])
    && (s.worker.Idle? && s.worker.delay.Some? ==> BACKOFF_MIN <= s.worker.delay.value <= BACKOFF_MAX)
    && (s.worker.Busy? && s.worker.delay.Some? ==> BACKOFF_MIN <= s.worker.delay.value <= BACKOFF_MAX)
  }

  lemma WakesUpMark(limit: nat, s: State)
    requires Conserved(s) && WakesUp(s) && Step(limit, s, FlushMark).Some?
    ensures WakesUp(Step(limit, s, FlushMark).value)
  {
    hide Ids, UniqueIds, Proper, AtLeast, MarkDone;
    MarkDoneProperties(s.flush.complete, s.store);
    assert s.flush.pending[..|s.flush.pending|] == s.flush.pending;
  }

  lemma WakesUpAppend(limit: nat, s: State)
    requires Conserved(s) && WakesUp(s) && Step(limit, s, FlushAppend).Some?
    ensures WakesUp(Step(limit, s, FlushAppend).value)
  {
    hide Ids, UniqueIds, Proper, AtLeast, Append;
    var s' := Step(limit, s, FlushAppend).value;
    IdsEmpty(s.flush.unsent);
    IdsEmpty(s'.store);
    AppendProperties(s.flush.unsent, s.store);
  }

  lemma WakesUpSend(limit: nat, s: State, a: Action)
    requires a.Send? || a.FlushCancelled?
    requires Conserved(s) && WakesUp(s) && Step(limit, s, a).Some?
    ensures WakesUp(Step(limit, s, a).value)
  {
    hide Ids, Conserved;
    var s' := Step(limit, s, a).value;
    assert s'.store == s.store && s'.worker == s.worker && InFlight(s') == InFlight(s);
  }

  lemma WakesUpFlush(limit: nat, s: State, a: Action)
    requires a.FlushLoad? || a.FlushLoadFails? || a.FinalTimeout? || a.FlushMarkFails? || a.FlushAppendFails?
    requires Conserved(s) && WakesUp(s) && Step(limit, s, a).Some?
    ensures WakesUp(Step(limit, s, a).value)
  {
    hide Ids, UniqueIds, Proper, GoodFlush;
    IdsEmpty(s.store);
  }

  lemma WakesUpEnqueue(limit: nat, s: State, a: Action)
    requires a.EnqueueStore? || a.EnqueueCheck? || a.EnqueueNotify?
    requires Conserved(s) && WakesUp(s) && Step(limit, s, a).Some?
    ensures WakesUp(Step(limit, s, a).value)
  {
    hide Ids, UniqueIds, Proper, GoodFlush, Append;
    var s' := Step(limit, s, a).value;
    if !a.EnqueueNotify? && s.hasTransport { assert a.thread in s'.enqueuers; }
  }

  lemma WakesUpControl(limit: nat, s: State, a: Action)
    requires a.StartTransport? || a.StartLoad? || a.StartLoadFails? || a.StartSpawn? || a.StartNotify?
             || a.RequestStop? || a.WorkerReceive? || a.WorkerTimer? || a.WorkerCancelled? || a.FinalFlush?
    requires Conserved(s) && WakesUp(s) && Step(limit, s, a).Some?
    ensures WakesUp(Step(limit, s, a).value)
  {
    hide Ids, UniqueIds, Proper, GoodFlush;
  }

  lemma WakesUpStep(limit: nat, s: State, a: Action)
    requires Conserved(s) && WakesUp(s) && Step(limit, s, a).Some?
    ensures WakesUp(Step(limit, s, a).value)
  {
    hide Conserved, WakesUp, Step;
    match a
    case EnqueueStore(_, _) | EnqueueCheck(_) | EnqueueNotify(_) => WakesUpEnqueue(limit, s, a);
    case FlushMark => WakesUpMark(limit, s);
    case FlushAppend => WakesUpAppend(limit, s);
    case Send(_) | FlushCancelled => WakesUpSend(limit, s, a);
    case FlushLoad | FlushLoadFails | FinalTimeout | FlushMarkFails | FlushAppendFails =>
      WakesUpFlush(limit, s, a);
    case _ => WakesUpControl(limit, s, a);
  }

  // ----- every run -----

  ghost predicate Invariant(limit: nat, s: State) {
    Conserved(s) && Attempted(limit, s) && WakesUp(s)
  }

  lemma InvariantInit(limit: nat, s: State)
    requires Init(s)
    ensures Invariant(limit, s)
  {
  }

  lemma {:induction false} InvariantRun(limit: nat, s: State, actions: seq<Action>)
    requires Invariant(limit, s) && Run(limit, s, actions).Some?
    ensures Invariant(limit, Run(limit, s, actions).value)
    ensures s.removed <= Run(limit, s, actions).value.removed
    decreases |actions|
  {
    hide Conserved, Attempted, WakesUp, Step;
    if actions != [] {
      var a := actions[0];
      ConservedStep(limit, s, a);
      AttemptedStep(limit, s, a);
      WakesUpStep(limit, s, a);
      RemovedGrows(limit, s, a);
      InvariantRun(limit, Step(limit, s, a).value, actions[1..]);
    }
  }

  lemma RemovedGrows(limit: nat, s: State, a: Action)
    requires Step(limit, s, a).Some?
    ensures s.removed <= Step(limit, s, a).value.removed
  {
    hide Ids, Append, MarkDone, Count, Retained;
  }

  /** In every run, each accepted event is in the store or has received its final outcome. */
  lemma NoEventLost(limit: nat, s0: State, actions: seq<Action>, id: string)
    requires Init(s0) && Run(limit, s0, actions).Some?
    requires id in Run(limit, s0, actions).value.accepted
    ensures var s := Run(limit, s0, actions).value; id in Ids(s.store) || id in s.finished
  {
    InvariantInit(limit, s0);
    InvariantRun(limit, s0, actions);
  }

  /** Once an event has been removed it never reappears, whatever happens afterwards. */
  lemma RemovedForGood(limit: nat, s0: State, first: seq<Action>, later: seq<Action>, id: string)
    requires Init(s0) && Run(limit, s0, first).Some? && id in Run(limit, s0, first).value.removed
    requires Run(limit, Run(limit, s0, first).value, later).Some?
    ensures var s := Run(limit, Run(limit, s0, first).value, later).value;
            id in s.finished && id !in Ids(s.store)
  {
    InvariantInit(limit, s0);
    InvariantRun(limit, s0, first);
    InvariantRun(limit, Run(limit, s0, first).value, later);
  }

  /** Undisturbed, a finished event is gone as soon as the flush that finished it has marked it done. */
  lemma FinishedIsGone(limit: nat, s0: State, actions: seq<Action>, id: string)
    requires Init(s0) && Run(limit, s0, actions).Some?
    requires var s := Run(limit, s0, actions).value;
             !s.disturbed && id in s.finished && !s.flush.Sending?
    ensures id !in Ids(Run(limit, s0, actions).value.store)
  {
    InvariantInit(limit, s0);
    InvariantRun(limit, s0, actions);
  }

  /** Undisturbed, no event is sent more than max(1, limit) times. */
  lemma AttemptsBounded(limit: nat, s0: State, actions: seq<Action>, id: string)
    requires Init(s0) && Run(limit, s0, actions).Some? && !Run(limit, s0, actions).value.disturbed
    ensures Count(Run(limit, s0, actions).value, id) <= Max(1, limit)
  {
    InvariantInit(limit, s0);
    InvariantRun(limit, s0, actions);
  }

  /** Undisturbed, the event at the cursor has no final outcome yet. */
  lemma CursorUnfinished(limit: nat, s: State)
    requires Conserved(s) && Attempted(limit, s) && !s.disturbed
    requires s.flush.Sending? && s.flush.index < |s.flush.pending|
    ensures s.flush.pending[s.flush.index].id !in s.finished
  {
    hide Ids;
    CursorFresh(s);
  }

  lemma LoudUncounted(limit: nat, s: State, a: Action)
    requires Step(limit, s, a).Some?
    requires a.EnqueueStore? || a.FlushCancelled? || a.FlushMark? || a.FlushAppend? || a.FlushLoad?
    ensures Step(limit, s, a).value.outcomes == s.outcomes
  {
    hide Append, MarkDone, Ids, Rested;
  }

  /** Only a send counts one. */
  lemma OnlySendsCount(limit: nat, s: State, a: Action)
    requires OneFlusher(s) && Step(limit, s, a).Some? && !a.Send?
    ensures Step(limit, s, a).value.outcomes == s.outcomes
  {
    hide Step, OneFlusher;
    if !Quiet(a) {
      LoudUncounted(limit, s, a);
    } else if a.WorkerReceive? || a.WorkerTimer? || a.FinalFlush? || a.FlushLoadFails?
              || a.FinalTimeout? || a.FlushMarkFails? || a.FlushAppendFails? {
      QuietFlush(limit, s, a);
    } else {
      QuietControl(limit, s, a);
    }
  }

  lemma CountKept(limit: nat, s: State, a: Action, id: string)
    requires Conserved(s) && Attempted(limit, s) && !s.disturbed && id in s.finished
    requires Step(limit, s, a).Some?
    ensures Count(Step(limit, s, a).value, id) == Count(s, id)
  {
    hide Attempted, Proper, GoodFlush, OneFlusher;
    if a.Send? {
      CursorUnfinished(limit, s);
    } else {
      hide Step;
      OnlySendsCount(limit, s, a);
    }
  }

  lemma StaysDisturbed(limit: nat, s: State, a: Action)
    requires Step(limit, s, a).Some?
    ensures s.disturbed ==> Step(limit, s, a).value.disturbed
  {
    hide Append, MarkDone, Ids, Retained, Rested, Count;
  }

  lemma {:induction false} NotSentAgain(limit: nat, s: State, later: seq<Action>, id: string)
    requires Invariant(limit, s) && id in s.finished
    requires Run(limit, s, later).Some? && !Run(limit, s, later).value.disturbed
    ensures !s.disturbed && Count(Run(limit, s, later).value, id) == Count(s, id)
    decreases |later|
  {
    hide Conserved, Attempted, WakesUp, Step, Count;
    if later != [] {
      var a := later[0];
      ConservedStep(limit, s, a);
      AttemptedStep(limit, s, a);
      WakesUpStep(limit, s, a);
      var s' := Step(limit, s, a).value;
      StillFinished(limit, s, a, id);
      NotSentAgain(limit, s', later[1..], id);
      StaysDisturbed(limit, s, a);
      CountKept(limit, s, a, id);
    }
  }

  lemma StillFinished(limit: nat, s: State, a: Action, id: string)
    requires Step(limit, s, a).Some? && id in s.finished
    ensures id in Step(limit, s, a).value.finished
  {
    hide Append, MarkDone, Ids, Retained, Rested, Count;
  }

  /**
    What one send decides. The event is finished exactly when it was delivered, was refused for good, or has
    used up its retries; otherwise the flush keeps it with one retry more. Undisturbed, a finished event is
    never sent again, whatever happens afterwards.
   */
  lemma SendDecides(limit: nat, s0: State, first: seq<Action>, o: Outcome, later: seq<Action>)
    requires Init(s0) && Run(limit, s0, first).Some? && !Run(limit, s0, first).value.disturbed
    requires var s := Run(limit, s0, first).value; s.flush.Sending? && s.flush.index < |s.flush.pending|
    ensures var s := Run(limit, s0, first).value;
            var t := s.flush.pending[s.flush.index];
            && Step(limit, s, Send(o)).Some?
            && var s' := Step(limit, s, Send(o)).value;
            && Count(s', t.id) == Count(s, t.id) + 1
            && s'.flush.Sending? && s'.flush.index == s.flush.index + 1
            && (t.id in s'.finished <==> o == Delivered || o == PermanentError || t.retries + 1 >= limit)
            && (t.id in s'.finished ==>
                s'.flush.complete == s.flush.complete + [t] && s'.flush.unsent == s.flush.unsent)
            && (t.id !in s'.finished ==>
                && s'.flush.complete == s.flush.complete
                && s'.flush.unsent == s.flush.unsent + [t.(retries := t.retries + 1)])
            && (t.id in s'.finished && Run(limit, s', later).Some? && !Run(limit, s', later).value.disturbed ==>
                Count(Run(limit, s', later).value, t.id) == Count(s', t.id))
  {
    hide Conserved, Attempted, WakesUp, Run;
    InvariantInit(limit, s0);
    InvariantRun(limit, s0, first);
    var s := Run(limit, s0, first).value;
    CursorUnfinished(limit, s);
    var t := s.flush.pending[s.flush.index];
    var s' := Sent(limit, s, o);
    ConservedStep(limit, s, Send(o));
    AttemptedStep(limit, s, Send(o));
    WakesUpStep(limit, s, Send(o));
    if t.id in s'.finished && Run(limit, s', later).Some? && !Run(limit, s', later).value.disturbed {
      NotSentAgain(limit, s', later, t.id);
    }
  }

  /** The stored list always has distinct ids and is ordered by time. */
  lemma StoreProper(limit: nat, s0: State, actions: seq<Action>)
    requires Init(s0) && Run(limit, s0, actions).Some?
    ensures Proper(Run(limit, s0, actions).value.store)
  {
    InvariantInit(limit, s0);
    InvariantRun(limit, s0, actions);
  }

  /** An idle worker without a timer and with events in the store has been, or is about to be, signalled. */
  lemma NoLostWakeUp(limit: nat, s0: State, actions: seq<Action>)
    requires Init(s0) && Run(limit, s0, actions).Some?
    ensures var s := Run(limit, s0, actions).value;
            s.worker == Idle(None) && s.store != [] ==>
              s.token || s.start == Spawned(true) || exists n :: n in s.enqueuers
  {
    InvariantInit(limit, s0);
    InvariantRun(limit, s0, actions);
    var s := Run(limit, s0, actions).value;
    if s.enqueuers != map[] {
      assert s.enqueuers.Keys != {};
    }
  }

  lemma Two(limit: nat, s: State, a: Action, b: Action)
    requires Step(limit, s, a).Some? && Step(limit, Step(limit, s, a).value, b).Some?
    ensures Run(limit, s, [a, b]) == Step(limit, Step(limit, s, a).value, b)
  {
    hide Step;
    assert [a, b][1..] == [b] && [b][1..] == [];
    var s1 := Step(limit, s, a).value;
    assert Run(limit, s1, [b]) == Step(limit, s1, b);
  }

  /** A thread that has stored its event wakes the worker by finishing its own call. */
  lemma EnqueuerWakes(limit: nat, s: State, n: nat) returns (more: seq<Action>)
    requires n in s.enqueuers && s.worker.Idle? && s.hasTransport
    ensures |more| <= 3 && Run(limit, s, more).Some?
    ensures Run(limit, s, more).value.flush == Loading(false) && Run(limit, s, more).value.store == s.store
  {
    if s.enqueuers[n] == Stored {
      var s1 := Step(limit, s, EnqueueCheck(n)).value;
      more := [EnqueueCheck(n)] + [EnqueueNotify(n), WorkerReceive];
      assert more[1..] == [EnqueueNotify(n), WorkerReceive];
      Two(limit, s1, EnqueueNotify(n), WorkerReceive);
    } else {
      more := [EnqueueNotify(n), WorkerReceive];
      Two(limit, s, EnqueueNotify(n), WorkerReceive);
    }
  }

  /**
    In every reachable state with an idle worker and a non-empty store, a flush can begin within
    three steps that no other thread's progress is needed for: the worker's own, or the remaining
    steps of one caller that is already on its way.
   */
  lemma FlushWithinReach(limit: nat, s0: State, actions: seq<Action>) returns (more: seq<Action>)
    requires Init(s0) && Run(limit, s0, actions).Some?
    requires var s := Run(limit, s0, actions).value; s.worker.Idle? && s.store != []
    ensures var s := Run(limit, s0, actions).value;
            && |more| <= 3 && Run(limit, s, more).Some?
            && Run(limit, s, more).value.flush == Loading(false) && Run(limit, s, more).value.store == s.store
  {
    hide GoodFlush, Attempted, Ids, Proper;
    InvariantInit(limit, s0);
    InvariantRun(limit, s0, actions);
    var s := Run(limit, s0, actions).value;
    if s.token || s.worker.delay.Some? {
      more := [if s.token then WorkerReceive else WorkerTimer];
      assert more[1..] == [];
    } else if s.enqueuers != map[] {
      assert s.enqueuers.Keys != {};
      var n :| n in s.enqueuers;
      more := EnqueuerWakes(limit, s, n);
    } else {
      more := [StartNotify, WorkerReceive];
      Two(limit, s, StartNotify, WorkerReceive);
    }
  }

  /** Re-appending replaces each stored copy by one whose retry count is at least as high, and drops nothing. */
  lemma ReappendWins(limit: nat, s0: State, actions: seq<Action>)
    requires Init(s0) && Run(limit, s0, actions).Some? && Run(limit, s0, actions).value.flush.Appending?
    ensures var s := Run(limit, s0, actions).value;
            var store' := Append(s.flush.unsent, s.store);
            && Step(limit, s, FlushAppend).Some? && Step(limit, s, FlushAppend).value.store == store'
            && (forall u | u in s.flush.unsent :: u in store')
            && (forall t | t in s.store && t.id !in Ids(s.flush.unsent) :: t in store')
            && (forall u, t | u in s.flush.unsent && t in s.store && u.id == t.id :: u.retries >= t.retries)
            && Ids(store') == Ids(s.store)
  {
    hide Ids, UniqueIds, Proper, Append, Run, WakesUp, Attempted;
    InvariantInit(limit, s0);
    InvariantRun(limit, s0, actions);
    var s := Run(limit, s0, actions).value;
    AppendProperties(s.flush.unsent, s.store);
  }
}
