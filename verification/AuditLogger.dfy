/** The logger's store operations and its delivery loop as methods, and how they drive the state machine. */
module AuditLoggers {
  import opened Common
  import opened AuditStore
  import opened AuditMachine

  /** What the loop over the pending list completes, given one outcome per transaction. */
  function CompleteOf(limit: nat, pending: seq<Transaction>, outcomes: seq<Outcome>): seq<Transaction>
    requires |outcomes| <= |pending|
  {
    if outcomes == [] then []
    else
      var n := |outcomes| - 1;
      CompleteOf(limit, pending, outcomes[..n]) + if Retained(limit, pending[n], outcomes[n]) then [] else [pending[n]]
  }

  /** What it keeps for another attempt, retry counts raised. */
  function UnsentOf(limit: nat, pending: seq<Transaction>, outcomes: seq<Outcome>): seq<Transaction>
    requires |outcomes| <= |pending|
  {
    if outcomes == [] then []
    else
      var n := |outcomes| - 1;
      UnsentOf(limit, pending, outcomes[..n]) +
      if Retained(limit, pending[n], outcomes[n]) then [pending[n].(retries := pending[n].retries + 1)] else []
  }

  /** One send step for each outcome. */
  function Sends(outcomes: seq<Outcome>): seq<Action> {
    seq(|outcomes|, i requires 0 <= i < |outcomes| => Send(outcomes[i]))
  }

  lemma {:induction false} RunAppend(limit: nat, s: State, a: seq<Action>, b: seq<Action>)
    requires Run(limit, s, a).Some?
    ensures Run(limit, s, a + b) == Run(limit, Run(limit, s, a).value, b)
    decreases |a|
  {
    if a == [] {
      assert a + b == b;
    } else {
      assert (a + b)[1..] == a[1..] + b;
      RunAppend(limit, Step(limit, s, a[0]).value, a[1..], b);
    }
  }

  /** The loop and the machine agree: sending outcome by outcome leaves exactly these two lists. */
  lemma {:induction false} LoopIsRun(limit: nat, s: State, outcomes: seq<Outcome>)
    requires s.flush.Sending? && s.flush.index == 0 && s.flush.complete == [] && s.flush.unsent == []
    requires |outcomes| <= |s.flush.pending|
    ensures var f := s.flush;
            && Run(limit, s, Sends(outcomes)).Some?
            && var s' := Run(limit, s, Sends(outcomes)).value;
            && s'.flush == Sending(f.final, f.pending, |outcomes|, CompleteOf(limit, f.pending, outcomes),
                                   UnsentOf(limit, f.pending, outcomes))
            && s'.store == s.store && s'.worker == s.worker && s'.cancelled == s.cancelled
  {
    hide Step, Run;
    if outcomes == [] {
      RunNothing(limit, s);
    } else {
      var n := |outcomes| - 1;
      LoopIsRun(limit, s, outcomes[..n]);
      var last := Send(outcomes[n]);
      assert Sends(outcomes) == Sends(outcomes[..n]) + [last];
      RunAppend(limit, s, Sends(outcomes[..n]), [last]);
      var s1 := Run(limit, s, Sends(outcomes[..n])).value;
      OneSend(limit, s1, outcomes[n]);
    }
  }

  lemma RunNothing(limit: nat, s: State)
    ensures Run(limit, s, []) == Some(s)
  {
  }

  lemma OneSend(limit: nat, s: State, o: Outcome)
    requires s.flush.Sending? && s.flush.index < |s.flush.pending|
    ensures Run(limit, s, [Send(o)]) == Some(Sent(limit, s, o))
  {
    hide Sent;
    assert [Send(o)][1..] == [];
  }

  lemma RunStep(limit: nat, s: State, a: Action, s': State, more: seq<Action>)
    requires Step(limit, s, a) == Some(s')
    ensures Run(limit, s, [a] + more) == Run(limit, s', more)
  {
    hide Step;
    assert ([a] + more)[1..] == more;
  }

  lemma RunOne(limit: nat, s: State, a: Action)
    ensures Run(limit, s, [a]) == Step(limit, s, a)
  {
    hide Step;
    assert [a][1..] == [];
  }

  // ----- single steps -----

  /** The machine after a flush has marked what it completed. */
  function Marked(s: State): State
    requires s.flush.Sending?
  {
    s.(store := MarkDone(s.flush.complete, s.store), removed := s.removed + Ids(s.flush.complete),
       flush := Appending(s.flush.final, s.flush.unsent))
  }

  function Appended(s: State): State
    requires s.flush.Appending?
  {
    End(s.(store := Append(s.flush.unsent, s.store)), s.flush.unsent == [])
  }

  function Disturbed(s: State): State {
    End(s, false).(disturbed := true)
  }

  lemma MarkSteps(limit: nat, s: State)
    requires s.flush.Sending? && s.flush.index == |s.flush.pending|
    ensures Step(limit, s, FlushMark) == Some(Marked(s))
    ensures s.flush.complete != [] ==> Step(limit, s, FlushMarkFails) == Some(Disturbed(s))
  {
    hide MarkDone, Ids;
  }

  lemma AppendSteps(limit: nat, s: State)
    requires s.flush.Appending?
    ensures Step(limit, s, FlushAppend) == Some(Appended(s))
    ensures s.flush.unsent != [] ==> Step(limit, s, FlushAppendFails) == Some(Disturbed(s))
  {
    hide Append;
  }

  lemma TimerStep(limit: nat, s: State)
    requires s.worker.Idle? && s.worker.delay.Some?
    ensures Step(limit, s, WorkerTimer) == Some(s.(worker := Busy(s.worker.delay), flush := Loading(false)))
  {
  }

  lemma FinalSteps(limit: nat, s: State)
    ensures s.flush.Sending? && s.flush.final ==>
              Step(limit, s, FinalTimeout) == Some(s.(flush := NoFlush, disturbed := true))
    ensures s.cancelled && s.flush == NoFlush && s.worker == Stopped ==>
              Step(limit, s, FinalFlush) == Some(s.(flush := Loading(true)))
  {
  }

  // ----- one flush -----

  datatype LoggerError = StoreFailed | NoTransport

  /** Whether the store operations of one flush work. */
  datatype Verdicts = Verdicts(load: bool, mark: bool, append: bool)

  /** What is kept when outcomes run out: the retained ones, and the whole rest as it is. */
  function KeptOf(limit: nat, pending: seq<Transaction>, outcomes: seq<Outcome>): seq<Transaction>
    requires |outcomes| <= |pending|
  {
    UnsentOf(limit, pending, outcomes) + pending[|outcomes|..]
  }

  /** The store after one flush that has it to itself, and what the flush returns. */
  function Flushed(limit: nat, store: seq<Transaction>, hasTransport: bool, outcomes: seq<Outcome>, v: Verdicts)
    : (seq<Transaction>, Result<bool, LoggerError>)
    requires |outcomes| <= |store|
  {
    if !v.load then (store, Err(StoreFailed))
    else if store == [] then (store, Ok(true))
    else if !hasTransport then (store, Err(NoTransport))
    else
      var complete, kept := CompleteOf(limit, store, outcomes), KeptOf(limit, store, outcomes);
      var marked := MarkDone(complete, store);
      if complete != [] && !v.mark then (store, Err(StoreFailed))
      else if kept != [] && !v.append then (marked, Err(StoreFailed))
      else (Append(kept, marked), Ok(kept == []))
  }

  /** The steps of the machine that such a flush takes after its sends. */
  function Closing(limit: nat, store: seq<Transaction>, outcomes: seq<Outcome>, v: Verdicts): seq<Action>
    requires |outcomes| <= |store|
  {
    if CompleteOf(limit, store, outcomes) != [] && !v.mark then [FlushMarkFails]
    else if KeptOf(limit, store, outcomes) != [] && !v.append then [FlushMark, FlushAppendFails]
    else [FlushMark, FlushAppend]
  }

  /** All the steps of such a flush; outcomes that do not reach the end of the list mean cancellation was seen. */
  function FlushActions(limit: nat, store: seq<Transaction>, hasTransport: bool, outcomes: seq<Outcome>, v: Verdicts)
    : seq<Action>
    requires |outcomes| <= |store|
  {
    if !v.load then [FlushLoadFails]
    else if store == [] || !hasTransport then [FlushLoad]
    else
      [FlushLoad] + (Sends(outcomes) + ((if |outcomes| < |store| then [FlushCancelled] else [])
                                        + Closing(limit, store, outcomes, v)))
  }

  /**
    A whole flush is a run of the machine: with the store to itself it leaves the store that the method
    leaves, the flush over, and the worker's timer set by what the method returns.
   */
  lemma FlushIsRun(limit: nat, s: State, outcomes: seq<Outcome>, v: Verdicts)
    requires s.flush.Loading? && |outcomes| <= |s.store|
    requires |outcomes| < |s.store| ==> s.cancelled && !s.flush.final
    ensures var run := Run(limit, s, FlushActions(limit, s.store, s.hasTransport, outcomes, v));
            var (store, r) := Flushed(limit, s.store, s.hasTransport, outcomes, v);
            && run.Some? && run.value.store == store && run.value.flush == NoFlush
            && run.value.worker == Rested(s.worker, r == Ok(true))
  {
    hide Run, Append, MarkDone, CompleteOf, UnsentOf, Retained, Ids;
    if !v.load {
      RunOne(limit, s, FlushLoadFails);
    } else if s.store == [] || !s.hasTransport {
      RunOne(limit, s, FlushLoad);
    } else {
      var s1 := s.(flush := Sending(s.flush.final, s.store, 0, [], []));
      var cancel := if |outcomes| < |s.store| then [FlushCancelled] else [];
      var closing := Closing(limit, s.store, outcomes, v);
      RunStep(limit, s, FlushLoad, s1, Sends(outcomes) + (cancel + closing));
      LoopIsRun(limit, s1, outcomes);
      RunAppend(limit, s1, Sends(outcomes), cancel + closing);
      var s2 := Run(limit, s1, Sends(outcomes)).value;
      CloseIsRun(limit, s2, s.store, outcomes, v);
    }
  }

  /** From the end of the sends to the end of the flush. */
  lemma CloseIsRun(limit: nat, s: State, store: seq<Transaction>, outcomes: seq<Outcome>, v: Verdicts)
    requires |outcomes| <= |store| && store != [] && v.load && s.store == store
    requires s.flush.Sending? && s.flush.pending == store && s.flush.index == |outcomes|
    requires s.flush.complete == CompleteOf(limit, store, outcomes)
             && s.flush.unsent == UnsentOf(limit, store, outcomes)
    requires |outcomes| < |store| ==> s.cancelled && !s.flush.final
    ensures var cancel := if |outcomes| < |store| then [FlushCancelled] else [];
            var run := Run(limit, s, cancel + Closing(limit, store, outcomes, v));
            var (store', r) := Flushed(limit, store, true, outcomes, v);
            && run.Some? && run.value.store == store' && run.value.flush == NoFlush
            && run.value.worker == Rested(s.worker, r == Ok(true))
  {
    hide Run, Append, MarkDone, CompleteOf, UnsentOf, Ids;
    var closing := Closing(limit, store, outcomes, v);
    if |outcomes| < |store| {
      var f := s.flush;
      var s' := s.(flush := f.(index := |store|, unsent := KeptOf(limit, store, outcomes)));
      RunStep(limit, s, FlushCancelled, s', closing);
      MarkAndAppend(limit, s', store, outcomes, v);
    } else {
      assert store[|outcomes|..] == [];
      assert s.flush.unsent + [] == s.flush.unsent;
      assert [] + closing == closing;
      MarkAndAppend(limit, s, store, outcomes, v);
    }
  }

  lemma MarkAndAppend(limit: nat, s: State, store: seq<Transaction>, outcomes: seq<Outcome>, v: Verdicts)
    requires |outcomes| <= |store| && store != [] && v.load && s.store == store
    requires s.flush.Sending? && s.flush.pending == store && s.flush.index == |store|
    requires s.flush.complete == CompleteOf(limit, store, outcomes) && s.flush.unsent == KeptOf(limit, store, outcomes)
    ensures var run := Run(limit, s, Closing(limit, store, outcomes, v));
            var (store', r) := Flushed(limit, store, true, outcomes, v);
            && run.Some? && run.value.store == store' && run.value.flush == NoFlush
            && run.value.worker == Rested(s.worker, r == Ok(true))
  {
    hide Run, Step, Append, MarkDone, CompleteOf, KeptOf, Ids;
    var f := s.flush;
    MarkSteps(limit, s);
    if f.complete != [] && !v.mark {
      RunOne(limit, s, FlushMarkFails);
    } else {
      var s' := Marked(s);
      AppendSteps(limit, s');
      var last := if f.unsent != [] && !v.append then FlushAppendFails else FlushAppend;
      assert [FlushMark, last] == [FlushMark] + [last];
      RunStep(limit, s, FlushMark, s', [last]);
      RunOne(limit, s', last);
    }
  }

  // ----- what becomes of each event -----

  /**
    Event `i` of the loop, without reference to how the loop decides: it is completed as it is when it was
    delivered, refused for good, or out of retries; otherwise it is kept with one retry more.
   */
  lemma {:induction false} OutcomeOf(limit: nat, pending: seq<Transaction>, outcomes: seq<Outcome>, i: nat)
    requires i < |outcomes| <= |pending|
    ensures if outcomes[i] == Delivered || outcomes[i] == PermanentError || pending[i].retries + 1 >= limit
            then pending[i] in CompleteOf(limit, pending, outcomes)
            else pending[i].(retries := pending[i].retries + 1) in UnsentOf(limit, pending, outcomes)
    decreases |outcomes|
  {
    var n := |outcomes| - 1;
    if i < n { OutcomeOf(limit, pending, outcomes[..n], i); }
  }

  /** Nothing else comes out of the loop. */
  lemma {:induction false} OnlyOutcomes(limit: nat, pending: seq<Transaction>, outcomes: seq<Outcome>, t: Transaction)
    requires |outcomes| <= |pending|
    ensures t in CompleteOf(limit, pending, outcomes) ==> exists i ::
              && 0 <= i < |outcomes| && t == pending[i]
              && (outcomes[i] == Delivered || outcomes[i] == PermanentError || t.retries + 1 >= limit)
    ensures t in UnsentOf(limit, pending, outcomes) ==> exists i ::
              && 0 <= i < |outcomes| && t == pending[i].(retries := pending[i].retries + 1)
              && outcomes[i] == RetryableError && t.retries < limit
    ensures |CompleteOf(limit, pending, outcomes)| + |UnsentOf(limit, pending, outcomes)| == |outcomes|
    decreases |outcomes|
  {
    if outcomes != [] {
      var n := |outcomes| - 1;
      OnlyOutcomes(limit, pending, outcomes[..n], t);
      var complete, unsent := CompleteOf(limit, pending, outcomes[..n]), UnsentOf(limit, pending, outcomes[..n]);
      if t in complete {
        var i :| && 0 <= i < n && t == pending[i]
                 && (outcomes[..n][i] == Delivered || outcomes[..n][i] == PermanentError || t.retries + 1 >= limit);
        assert outcomes[i] == outcomes[..n][i];
      }
      if t in unsent {
        var i :| && 0 <= i < n && t == pending[i].(retries := pending[i].retries + 1)
                 && outcomes[..n][i] == RetryableError && t.retries < limit;
        assert outcomes[i] == outcomes[..n][i];
      }
    }
  }

  /** With distinct ids: event `i` is completed exactly when its outcome is final or its retries are used up. */
  lemma CompletedExactly(limit: nat, pending: seq<Transaction>, outcomes: seq<Outcome>, i: nat)
    requires i < |outcomes| <= |pending| && UniqueIds(pending)
    ensures pending[i] in CompleteOf(limit, pending, outcomes) <==>
            outcomes[i] == Delivered || outcomes[i] == PermanentError || pending[i].retries + 1 >= limit
    ensures pending[i].id in Ids(CompleteOf(limit, pending, outcomes)) <==>
            pending[i] in CompleteOf(limit, pending, outcomes)
    ensures pending[i] !in CompleteOf(limit, pending, outcomes) ==>
            pending[i].(retries := pending[i].retries + 1) in UnsentOf(limit, pending, outcomes)
  {
    hide CompleteOf, UnsentOf, Ids, UniqueIds;
    var complete := CompleteOf(limit, pending, outcomes);
    OutcomeOf(limit, pending, outcomes, i);
    IdsMember(complete, pending[i].id);
    forall t | t in complete && t.id == pending[i].id
      ensures t == pending[i] && (outcomes[i] != RetryableError || t.retries + 1 >= limit)
    {
      OnlyOutcomes(limit, pending, outcomes, t);
      var j :| && 0 <= j < |outcomes| && t == pending[j]
               && (outcomes[j] == Delivered || outcomes[j] == PermanentError || t.retries + 1 >= limit);
      DistinctIds(pending, i, j);
    }
  }

  lemma DistinctIds(ts: seq<Transaction>, i: nat, j: nat)
    requires i < |ts| && j < |ts| && UniqueIds(ts) && ts[i].id == ts[j].id
    ensures i == j
  {
    if i < j {
      UniqueAt(ts, i, j);
    } else if j < i {
      UniqueAt(ts, j, i);
    }
  }

  lemma {:induction false} UniqueAt(ts: seq<Transaction>, i: nat, j: nat)
    requires i < j < |ts| && UniqueIds(ts)
    ensures ts[i].id != ts[j].id
  {
    if i == 0 {
      assert ts[j] in ts[1..] by { assert ts[1..][j - 1] == ts[j]; }
      IdsMember(ts[1..], ts[j].id);
    } else {
      UniqueAt(ts[1..], i - 1, j - 1);
    }
  }

  /**
    What a flush that has the store to itself and can record everything leaves of each event. A final outcome,
    or the last retry, removes it; a retryable one keeps it with one retry more; an event it did not get to is
    as it was; and nothing else is in the store.
   */
  lemma FlushDecides(limit: nat, store: seq<Transaction>, outcomes: seq<Outcome>, i: nat)
    requires Proper(store) && i < |store| && |outcomes| <= |store|
    ensures var store' := Flushed(limit, store, true, outcomes, WORKING).0;
            var t := store[i];
            && Ids(store') <= Ids(store)
            && (t.id !in Ids(store') <==>
                && i < |outcomes|
                && (outcomes[i] == Delivered || outcomes[i] == PermanentError || t.retries + 1 >= limit))
            && (t.id in Ids(store') ==>
                (if i < |outcomes| then t.(retries := t.retries + 1) else t) in store')
  {
    hide CompleteOf, UnsentOf, Ids, UniqueIds, Append, MarkDone, Proper;
    var complete, kept := CompleteOf(limit, store, outcomes), KeptOf(limit, store, outcomes);
    var marked := MarkDone(complete, store);
    ProperUnique(store);
    KeptIds(limit, store, outcomes);
    MarkDoneProperties(complete, store);
    AppendProperties(kept, marked);
    IdsMember(store, store[i].id);
    if i < |outcomes| {
      CompletedExactly(limit, store, outcomes, i);
    } else {
      assert store[i] in store[|outcomes|..] by { assert store[|outcomes|..][i - |outcomes|] == store[i]; }
      IdsMember(kept, store[i].id);
    }
  }

  lemma FlushDecidesAll(limit: nat, store: seq<Transaction>, outcomes: seq<Outcome>)
    requires |outcomes| <= |store|
    ensures Proper(store) ==> forall i | 0 <= i < |store| ::
              var store' := Flushed(limit, store, true, outcomes, WORKING).0;
              var t := store[i];
              && (t.id !in Ids(store') <==>
                  && i < |outcomes|
                  && (outcomes[i] == Delivered || outcomes[i] == PermanentError || t.retries + 1 >= limit))
              && (t.id in Ids(store') ==> (if i < |outcomes| then t.(retries := t.retries + 1) else t) in store')
  {
    hide Flushed, Ids, Proper;
    if Proper(store) {
      forall i | 0 <= i < |store|
        ensures var store' := Flushed(limit, store, true, outcomes, WORKING).0;
                var t := store[i];
                && (t.id !in Ids(store') <==>
                    && i < |outcomes|
                    && (outcomes[i] == Delivered || outcomes[i] == PermanentError || t.retries + 1 >= limit))
                && (t.id in Ids(store') ==> (if i < |outcomes| then t.(retries := t.retries + 1) else t) in store')
      {
        FlushDecides(limit, store, outcomes, i);
      }
    }
  }

  lemma Decided(limit: nat, pending: seq<Transaction>, outcomes: seq<Outcome>)
    requires |outcomes| <= |pending|
    ensures var complete, unsent := CompleteOf(limit, pending, outcomes), KeptOf(limit, pending, outcomes);
            && (UniqueIds(pending) ==> forall i | 0 <= i < |outcomes| ::
                && (pending[i] in complete <==>
                    outcomes[i] == Delivered || outcomes[i] == PermanentError || pending[i].retries + 1 >= limit)
                && (pending[i] !in complete ==> pending[i].(retries := pending[i].retries + 1) in unsent))
            && forall i | |outcomes| <= i < |pending| :: pending[i] in unsent
  {
    hide CompleteOf, UnsentOf, UniqueIds;
    if UniqueIds(pending) {
      forall i | 0 <= i < |outcomes|
        ensures pending[i] in CompleteOf(limit, pending, outcomes) <==>
                outcomes[i] == Delivered || outcomes[i] == PermanentError || pending[i].retries + 1 >= limit
        ensures pending[i] !in CompleteOf(limit, pending, outcomes) ==>
                pending[i].(retries := pending[i].retries + 1) in UnsentOf(limit, pending, outcomes)
      {
        CompletedExactly(limit, pending, outcomes, i);
      }
    }
    forall i | |outcomes| <= i < |pending| ensures pending[i] in pending[|outcomes|..] {
      assert pending[|outcomes|..][i - |outcomes|] == pending[i];
    }
  }

  /** What the loop completes and what it keeps share the ids of its list between them. */
  lemma KeptIds(limit: nat, pending: seq<Transaction>, outcomes: seq<Outcome>)
    requires |outcomes| <= |pending| && UniqueIds(pending)
    ensures var complete, kept := CompleteOf(limit, pending, outcomes), KeptOf(limit, pending, outcomes);
            && Ids(complete) + Ids(kept) == Ids(pending) && Ids(complete) !! Ids(kept) && UniqueIds(kept)
  {
    hide CompleteOf, UnsentOf, Ids, UniqueIds;
    var n := |outcomes|;
    var unsent := UnsentOf(limit, pending, outcomes);
    assert pending == pending[..n] + pending[n..];
    OutcomeIds(limit, pending, outcomes);
    UniqueAppend(pending[..n], pending[n..]);
    IdsAppend(pending[..n], pending[n..]);
    UniqueAppend(unsent, pending[n..]);
    IdsAppend(unsent, pending[n..]);
  }

  // ----- the retry timer -----

  /** The timer after `k` failed flushes in a row: half a second, doubled each time, up to ten seconds. */
  function DelayAfter(k: nat): Option<nat> {
    if k == 0 then None else Some(Min(500 * Pow2(k - 1), 10000))
  }

  lemma DelayDoubles(k: nat)
    ensures Rested(Busy(DelayAfter(k)), false) == Idle(DelayAfter(k + 1))
    ensures Rested(Busy(DelayAfter(k)), true) == Idle(None)
  {
    if k > 0 { assert Pow2(k) == 2 * Pow2(k - 1); }
  }

  /** One flush of the worker: what wakes it, what its sends come back with, and which store operations work. */
  datatype Attempt = Attempt(timer: bool, outcomes: seq<Outcome>, v: Verdicts)

  /** The machine when such a flush has ended, with no other step in between. */
  function AfterAttempt(limit: nat, s: State, a: Attempt): Option<State> {
    if |a.outcomes| > |s.store| then None
    else
      Run(limit, s, [if a.timer then WorkerTimer else WorkerReceive] +
                    FlushActions(limit, s.store, s.hasTransport, a.outcomes, a.v))
  }

  /** Whether the flush reports that everything was done. */
  predicate Succeeds(limit: nat, s: State, a: Attempt)
    requires |a.outcomes| <= |s.store|
  {
    Flushed(limit, s.store, s.hasTransport, a.outcomes, a.v).1 == Ok(true)
  }

  /** All flushes but the last fail; the last one does or does not, as told. */
  predicate Attempts(limit: nat, s: State, attempts: seq<Attempt>)
    decreases |attempts|
  {
    attempts == [] ||
    (AfterAttempt(limit, s, attempts[0]).Some?
     && (|attempts[0].outcomes| < |s.store| ==> s.cancelled)
     && (|attempts| > 1 ==> !Succeeds(limit, s, attempts[0]))
     && Attempts(limit, AfterAttempt(limit, s, attempts[0]).value, attempts[1..]))
  }

  /** The machine before attempt number `k`. */
  function Before(limit: nat, s: State, attempts: seq<Attempt>, k: nat): State
    requires Attempts(limit, s, attempts) && k <= |attempts|
    decreases |attempts|
  {
    if k == 0 then s else Before(limit, AfterAttempt(limit, s, attempts[0]).value, attempts[1..], k - 1)
  }

  lemma AttemptRests(limit: nat, s: State, a: Attempt)
    requires s.worker.Idle? && AfterAttempt(limit, s, a).Some? && (|a.outcomes| < |s.store| ==> s.cancelled)
    ensures AfterAttempt(limit, s, a).value.worker == Rested(Busy(s.worker.delay), Succeeds(limit, s, a))
  {
    hide Run, Step, Flushed, FlushActions, Rested;
    var begin := if a.timer then WorkerTimer else WorkerReceive;
    var flush := FlushActions(limit, s.store, s.hasTransport, a.outcomes, a.v);
    BeginsFlush(limit, s, begin, flush);
    var s1 := Step(limit, s, begin).value;
    FlushIsRun(limit, s1, a.outcomes, a.v);
  }

  lemma BeginsFlush(limit: nat, s: State, begin: Action, flush: seq<Action>)
    requires s.worker.Idle? && (begin == WorkerTimer || begin == WorkerReceive)
    requires Run(limit, s, [begin] + flush).Some?
    ensures Step(limit, s, begin).Some?
    ensures var s1 := Step(limit, s, begin).value;
            && Run(limit, s, [begin] + flush) == Run(limit, s1, flush)
            && s1.flush == Loading(false) && s1.worker == Busy(s.worker.delay)
            && s1.store == s.store && s1.hasTransport == s.hasTransport && s1.cancelled == s.cancelled
  {
    assert ([begin] + flush)[1..] == flush;
  }

  /**
    The retry timer over any number of flushes of which all but the last fail: the k-th failure in a row arms
    min(500 * 2^(k-1), 10000) milliseconds, and a success disarms it.
   */
  lemma {:induction false} BackoffDoubles(limit: nat, s: State, attempts: seq<Attempt>, k: nat)
    requires s.worker == Idle(DelayAfter(k)) && attempts != [] && Attempts(limit, s, attempts)
    ensures var last := Before(limit, s, attempts, |attempts| - 1);
            && |attempts[|attempts| - 1].outcomes| <= |last.store|
            && Before(limit, s, attempts, |attempts|).worker ==
               if Succeeds(limit, last, attempts[|attempts| - 1]) then Idle(None)
               else Idle(Some(Min(500 * Pow2(k + |attempts| - 1), 10000)))
    decreases |attempts|
  {
    hide AfterAttempt, Succeeds, Rested;
    var a := attempts[0];
    assert |a.outcomes| <= |s.store| by { Fits(limit, s, a); }
    AttemptRests(limit, s, a);
    DelayDoubles(k);
    var s1 := AfterAttempt(limit, s, a).value;
    if |attempts| > 1 {
      BackoffDoubles(limit, s1, attempts[1..], k + 1);
      assert attempts[1..][|attempts| - 2] == attempts[|attempts| - 1];
    } else {
      assert Before(limit, s, attempts, 1) == s1;
    }
  }

  lemma Fits(limit: nat, s: State, a: Attempt)
    requires AfterAttempt(limit, s, a).Some?
    ensures |a.outcomes| <= |s.store|
  {
  }

  // ----- the queue drains -----

  const WORKING := Verdicts(true, true, true)

  /** The store after a flush that has it to itself, gets to the end of its list, and can record everything. */
  function WholeFlush(limit: nat, store: seq<Transaction>, outcomes: seq<Outcome>): seq<Transaction>
    requires |outcomes| == |store|
  {
    Flushed(limit, store, true, outcomes, WORKING).0
  }

  /** One outcome for every event of every flush. */
  predicate Rounds(limit: nat, store: seq<Transaction>, rounds: seq<seq<Outcome>>)
    decreases |rounds|
  {
    rounds == [] || (|rounds[0]| == |store| && Rounds(limit, WholeFlush(limit, store, rounds[0]), rounds[1..]))
  }

  function AfterRounds(limit: nat, store: seq<Transaction>, rounds: seq<seq<Outcome>>): seq<Transaction>
    requires Rounds(limit, store, rounds)
    decreases |rounds|
  {
    if rounds == [] then store else AfterRounds(limit, WholeFlush(limit, store, rounds[0]), rounds[1..])
  }

  /** The delivery loop loses no id and mixes none up. */
  lemma {:induction false} OutcomeIds(limit: nat, pending: seq<Transaction>, outcomes: seq<Outcome>)
    requires |outcomes| <= |pending| && UniqueIds(pending)
    ensures var complete, unsent := CompleteOf(limit, pending, outcomes), UnsentOf(limit, pending, outcomes);
            && Ids(complete) + Ids(unsent) == Ids(pending[..|outcomes|])
            && UniqueIds(unsent) && Ids(complete) !! Ids(unsent)
    decreases |outcomes|
  {
    hide Ids, UniqueIds, Retained;
    if outcomes == [] {
      NothingUnique();
      assert pending[..0] == [];
    } else {
      var n := |outcomes| - 1;
      OutcomeIds(limit, pending, outcomes[..n]);
      var t := pending[n];
      var complete, unsent := CompleteOf(limit, pending, outcomes[..n]), UnsentOf(limit, pending, outcomes[..n]);
      assert pending == pending[..n] + pending[n..] && pending[n] in pending[n..];
      UniqueAppend(pending[..n], pending[n..]);
      IdsMember(pending[n..], t.id);
      assert pending[..n + 1] == pending[..n] + [t];
      AppendOne(pending[..n], t);
      AppendOne(complete, t);
      AppendOne(unsent, t.(retries := t.retries + 1));
      assert complete + [] == complete && unsent + [] == unsent;
    }
  }

  /** What is kept has been tried once more, and may be tried again. */
  lemma {:induction false} RetriesRise(limit: nat, pending: seq<Transaction>, outcomes: seq<Outcome>, tried: nat)
    requires |outcomes| <= |pending| && forall t | t in pending :: t.retries >= tried
    ensures forall u | u in UnsentOf(limit, pending, outcomes) :: tried < u.retries < limit
    decreases |outcomes|
  {
    if outcomes != [] { RetriesRise(limit, pending, outcomes[..|outcomes| - 1], tried); }
  }

  /** After a whole flush only what it kept is left. */
  lemma KeptIsLeft(limit: nat, store: seq<Transaction>, outcomes: seq<Outcome>, tried: nat)
    requires Proper(store) && |outcomes| == |store| && forall t | t in store :: t.retries >= tried
    ensures var store' := WholeFlush(limit, store, outcomes);
            Proper(store') && forall t | t in store' :: tried < t.retries < limit
  {
    hide Ids, UniqueIds, CompleteOf, UnsentOf, Append, MarkDone, Proper;
    if store != [] {
      var complete, unsent := CompleteOf(limit, store, outcomes), UnsentOf(limit, store, outcomes);
      assert store[|outcomes|..] == [] && unsent + [] == unsent && store[..|outcomes|] == store;
      assert KeptOf(limit, store, outcomes) == unsent;
      ProperUnique(store);
      OutcomeIds(limit, store, outcomes);
      RetriesRise(limit, store, outcomes, tried);
      var marked := MarkDone(complete, store);
      MarkDoneProperties(complete, store);
      AppendProperties(unsent, marked);
      forall t | t in Append(unsent, marked) ensures t in unsent {
        if t in marked { IdsMember(store, t.id); }
      }
    }
  }

  lemma {:induction false} Tried(limit: nat, store: seq<Transaction>, rounds: seq<seq<Outcome>>, tried: nat)
    requires Proper(store) && Rounds(limit, store, rounds)
    requires forall t | t in store :: t.retries >= tried
    ensures rounds != [] ==> forall t | t in AfterRounds(limit, store, rounds) :: tried + |rounds| <= t.retries < limit
    decreases |rounds|
  {
    hide WholeFlush, Proper;
    if rounds != [] {
      var store' := WholeFlush(limit, store, rounds[0]);
      KeptIsLeft(limit, store, rounds[0], tried);
      Tried(limit, store', rounds[1..], tried + 1);
    }
  }

  /**
    The queue drains: whatever the outcomes, max(1, limit) whole flushes with a working store and nothing
    enqueued in between leave it empty.
   */
  lemma QueueDrains(limit: nat, store: seq<Transaction>, rounds: seq<seq<Outcome>>)
    requires Proper(store) && Rounds(limit, store, rounds) && |rounds| >= Max(1, limit)
    ensures AfterRounds(limit, store, rounds) == []
  {
    hide AfterRounds, Rounds, Proper;
    Tried(limit, store, rounds, 0);
    FirstIn(AfterRounds(limit, store, rounds));
  }

  lemma FirstIn(ts: seq<Transaction>)
    ensures ts != [] ==> ts[0] in ts
  {
  }

  // ----- what a failing store costs -----

  /** What can keep a flush from recording what it did. */
  datatype Mishap = MarkFails | AppendFails | CutOff

  /** One flush with a mishap, up to the next flush. */
  function Round(m: Mishap): seq<Action> {
    match m
    case MarkFails => [FlushLoad] + ([Send(Delivered)] + ([FlushMarkFails] + [WorkerTimer]))
    case AppendFails => [FlushLoad] + ([Send(RetryableError)] + ([FlushMark] + ([FlushAppendFails] + [WorkerTimer])))
    case CutOff => [FlushLoad] + ([Send(Delivered)] + ([FinalTimeout] + [FinalFlush]))
  }

  /** A flush of the single event `t` is about to begin; for a failing re-append the event must be retryable. */
  predicate Poised(limit: nat, m: Mishap, s: State, t: Transaction) {
    && s.store == [t] && s.hasTransport
    && match m
       case CutOff => s.flush == Loading(true) && s.worker == Stopped && s.cancelled
       case MarkFails => s.flush == Loading(false) && s.worker.Busy?
       case AppendFails => s.flush == Loading(false) && s.worker.Busy? && t.retries + 1 < limit
  }

  /** The event is sent, and the sending counted, in the state the machine is in then. */
  lemma SentOnce(limit: nat, s: State, t: Transaction, o: Outcome) returns (s1: State, s2: State)
    requires s.flush.Loading? && s.store == [t] && s.hasTransport
    ensures Step(limit, s, FlushLoad) == Some(s1) && Step(limit, s1, Send(o)) == Some(s2)
    ensures s2.worker == s.worker && s2.cancelled == s.cancelled && s2.store == s.store && s2.hasTransport
    ensures Count(s2, t.id) == Count(s, t.id) + 1
    ensures s2.flush == if Retained(limit, t, o)
                        then Sending(s.flush.final, [t], 1, [], [t.(retries := t.retries + 1)])
                        else Sending(s.flush.final, [t], 1, [t], [])
  {
    s1 := s.(flush := Sending(s.flush.final, s.store, 0, [], []));
    s2 := Sent(limit, s1, o);
  }

  lemma RoundRepeats(limit: nat, m: Mishap, s: State, t: Transaction)
    requires Poised(limit, m, s, t)
    ensures Run(limit, s, Round(m)).Some?
    ensures var s' := Run(limit, s, Round(m)).value;
            Poised(limit, m, s', t) && Count(s', t.id) == Count(s, t.id) + 1
  {
    hide Run, Step, Retained;
    match m {
      case MarkFails => RoundOfMark(limit, s, t);
      case AppendFails => RoundOfAppend(limit, s, t);
      case CutOff => RoundOfCutOff(limit, s, t);
    }
  }

  lemma RoundOfMark(limit: nat, s: State, t: Transaction)
    requires Poised(limit, MarkFails, s, t)
    ensures var run := Run(limit, s, Round(MarkFails));
            run.Some? && Poised(limit, MarkFails, run.value, t) && Count(run.value, t.id) == Count(s, t.id) + 1
  {
    hide Run, Step, Count;
    var s1, s2 := SentOnce(limit, s, t, Delivered);
    var s3 := Disturbed(s2);
    var s4 := s3.(worker := Busy(s3.worker.delay), flush := Loading(false));
    MarkSteps(limit, s2);
    TimerStep(limit, s3);
    RunStep(limit, s, FlushLoad, s1, [Send(Delivered)] + ([FlushMarkFails] + [WorkerTimer]));
    RunStep(limit, s1, Send(Delivered), s2, [FlushMarkFails] + [WorkerTimer]);
    RunStep(limit, s2, FlushMarkFails, s3, [WorkerTimer]);
    RunOne(limit, s3, WorkerTimer);
    SameCount(s2, s4, t.id);
  }

  lemma RoundOfAppend(limit: nat, s: State, t: Transaction)
    requires Poised(limit, AppendFails, s, t)
    ensures var run := Run(limit, s, Round(AppendFails));
            run.Some? && Poised(limit, AppendFails, run.value, t) && Count(run.value, t.id) == Count(s, t.id) + 1
  {
    hide Run, Step, Count;
    var s1, s2 := SentOnce(limit, s, t, RetryableError);
    var s3 := Marked(s2);
    var s4 := Disturbed(s3);
    var s5 := s4.(worker := Busy(s4.worker.delay), flush := Loading(false));
    MarkSteps(limit, s2);
    AppendSteps(limit, s3);
    TimerStep(limit, s4);
    RunStep(limit, s, FlushLoad, s1, [Send(RetryableError)] + ([FlushMark] + ([FlushAppendFails] + [WorkerTimer])));
    RunStep(limit, s1, Send(RetryableError), s2, [FlushMark] + ([FlushAppendFails] + [WorkerTimer]));
    RunStep(limit, s2, FlushMark, s3, [FlushAppendFails] + [WorkerTimer]);
    RunStep(limit, s3, FlushAppendFails, s4, [WorkerTimer]);
    RunOne(limit, s4, WorkerTimer);
    SameCount(s2, s5, t.id);
  }

  lemma RoundOfCutOff(limit: nat, s: State, t: Transaction)
    requires Poised(limit, CutOff, s, t)
    ensures var run := Run(limit, s, Round(CutOff));
            run.Some? && Poised(limit, CutOff, run.value, t) && Count(run.value, t.id) == Count(s, t.id) + 1
  {
    hide Run, Step, Count;
    var s1, s2 := SentOnce(limit, s, t, Delivered);
    var s3 := s2.(flush := NoFlush, disturbed := true);
    var s4 := s3.(flush := Loading(true));
    FinalSteps(limit, s2);
    FinalSteps(limit, s3);
    RunStep(limit, s, FlushLoad, s1, [Send(Delivered)] + ([FinalTimeout] + [FinalFlush]));
    RunStep(limit, s1, Send(Delivered), s2, [FinalTimeout] + [FinalFlush]);
    RunStep(limit, s2, FinalTimeout, s3, [FinalFlush]);
    RunOne(limit, s3, FinalFlush);
    SameCount(s2, s4, t.id);
  }

  lemma SameCount(s: State, s': State, id: string)
    requires s'.outcomes == s.outcomes
    ensures Count(s', id) == Count(s, id)
  {
  }

  /** Starting with one stored event, by which steps the first of those flushes comes about. */
  function Opening(m: Mishap): seq<Action> {
    [StartTransport] + ([StartLoad] + ([StartSpawn] +
    if m.CutOff? then [RequestStop] + ([WorkerCancelled] + [FinalFlush]) else [StartNotify] + [WorkerReceive]))
  }

  lemma SingleProper(t: Transaction)
    ensures Proper([t])
  {
    var none: seq<Transaction> := [];
    assert [t][1..] == none && Ids(none) == {};
  }

  lemma FirstFlush(limit: nat, m: Mishap, t: Transaction) returns (s0: State)
    requires m.AppendFails? ==> t.retries + 1 < limit
    ensures Init(s0) && Run(limit, s0, Opening(m)).Some?
    ensures var s := Run(limit, s0, Opening(m)).value; Poised(limit, m, s, t) && Count(s, t.id) == 0
  {
    hide Run;
    s0 := State([t], false, false, false, NotBegun, NotSpawned, NoFlush, map[], Ids([t]), {}, {}, map[], false);
    SingleProper(t);
    var s1 := s0.(hasTransport := true, start := TransportSet);
    var s2 := s1.(start := Loaded(true));
    var s3 := s2.(worker := Idle(None), start := Spawned(true));
    var more := if m.CutOff? then [RequestStop] + ([WorkerCancelled] + [FinalFlush])
      else [StartNotify] + [WorkerReceive];
    RunStep(limit, s0, StartTransport, s1, [StartLoad] + ([StartSpawn] + more));
    RunStep(limit, s1, StartLoad, s2, [StartSpawn] + more);
    RunStep(limit, s2, StartSpawn, s3, more);
    if m.CutOff? { StopAtOnce(limit, s3); } else { NotifyAndReceive(limit, s3); }
  }

  lemma StopAtOnce(limit: nat, s: State)
    requires s.worker.Idle? && s.flush == NoFlush
    ensures Run(limit, s, [RequestStop] + ([WorkerCancelled] + [FinalFlush])) ==
            Some(s.(cancelled := true, worker := Stopped, flush := Loading(true)))
  {
    hide Run;
    var s1 := s.(cancelled := true);
    var s2 := s1.(worker := Stopped);
    RunStep(limit, s, RequestStop, s1, [WorkerCancelled] + [FinalFlush]);
    RunStep(limit, s1, WorkerCancelled, s2, [FinalFlush]);
    RunOne(limit, s2, FinalFlush);
  }

  lemma NotifyAndReceive(limit: nat, s: State)
    requires s.worker.Idle? && s.start == Spawned(true) && s.flush == NoFlush
    ensures Run(limit, s, [StartNotify] + [WorkerReceive]) ==
            Some(s.(start := Started, token := false, worker := Busy(s.worker.delay), flush := Loading(false)))
  {
    hide Run;
    var s1 := s.(start := Started, token := true);
    RunStep(limit, s, StartNotify, s1, [WorkerReceive]);
    RunOne(limit, s1, WorkerReceive);
  }

  /**
    The bound on sends needs every flush to record what it did: with a store that refuses removals, with
    one that refuses the re-append of a retryable event, or with final flushes cut off by their time-out,
    any number of sends of one event can happen.
   */
  lemma {:induction false} SendsUnbounded(limit: nat, m: Mishap, t: Transaction, rounds: nat)
    returns (s0: State, actions: seq<Action>)
    requires m.AppendFails? ==> t.retries + 1 < limit
    ensures Init(s0) && Run(limit, s0, actions).Some?
    ensures var s := Run(limit, s0, actions).value; Poised(limit, m, s, t) && Count(s, t.id) == rounds
  {
    hide Run, Init, Poised, Count;
    if rounds == 0 {
      s0 := FirstFlush(limit, m, t);
      actions := Opening(m);
    } else {
      s0, actions := SendsUnbounded(limit, m, t, rounds - 1);
      RoundRepeats(limit, m, Run(limit, s0, actions).value, t);
      RunAppend(limit, s0, actions, Round(m));
      actions := actions + Round(m);
    }
  }

  class Logger {
    const retryLimit: nat
    var hasTransport: bool
    var store: seq<Transaction>

    constructor (limit: nat, restored: seq<Transaction>)
      ensures retryLimit == limit && !hasTransport && store == restored
    {
      retryLimit := limit;
      hasTransport := false;
      store := restored;
    }

    /** A read-modify-write of the store; when the store does not work nothing changes. */
    method AppendToStore(transactions: seq<Transaction>, works: bool) returns (ok: bool)
      modifies this`store
      ensures ok <==> transactions == [] || works
      ensures store == if ok then Append(transactions, old(store)) else old(store)
    {
      if transactions == [] {
        return true;
      }
      if !works {
        return false;
      }
      store := ComputeDeduplicateAndSort(transactions + store);
      ok := true;
    }

    method MarkTransactionsDone(complete: seq<Transaction>, works: bool) returns (ok: bool)
      modifies this`store
      ensures ok <==> complete == [] || works
      ensures store == if ok then MarkDone(complete, old(store)) else old(store)
    {
      if complete == [] {
        return true;
      }
      if !works {
        return false;
      }
      var ids := Ids(complete);
      var unsent := [];
      var i := 0;
      while i < |store|
        invariant 0 <= i <= |store| && store == old(store)
        invariant Without(store, ids) == unsent + Without(store[i..], ids)
      {
        assert store[i..][1..] == store[i + 1..];
        if store[i].id !in ids {
          unsent := unsent + [store[i]];
        }
        i := i + 1;
      }
      assert unsent == Without(store, ids);
      store := unsent;
      ok := true;
    }

    /** The delivery loop; when outcomes run out, cancellation was observed and the rest is kept as it is. */
    method Deliver(pending: seq<Transaction>, outcomes: seq<Outcome>)
      returns (complete: seq<Transaction>, unsent: seq<Transaction>)
      requires |outcomes| <= |pending|
      ensures complete == CompleteOf(retryLimit, pending, outcomes)
      ensures unsent == KeptOf(retryLimit, pending, outcomes)
      ensures UniqueIds(pending) ==> forall i | 0 <= i < |outcomes| ::
                && (pending[i] in complete <==>
                    outcomes[i] == Delivered || outcomes[i] == PermanentError || pending[i].retries + 1 >= retryLimit)
                && (pending[i] !in complete ==> pending[i].(retries := pending[i].retries + 1) in unsent)
      ensures forall i | |outcomes| <= i < |pending| :: pending[i] in unsent
    {
      Decided(retryLimit, pending, outcomes);
      complete, unsent := [], [];
      var index := 0;
      while index < |pending|
        invariant 0 <= index <= |outcomes|
        invariant complete == CompleteOf(retryLimit, pending, outcomes[..index])
        invariant unsent == UnsentOf(retryLimit, pending, outcomes[..index])
      {
        if index == |outcomes| {
          unsent := unsent + pending[index..];
          assert outcomes[..index] == outcomes;
          return;
        }
        assert outcomes[..index + 1][..index] == outcomes[..index];
        var t := pending[index];
        if Retained(retryLimit, t, outcomes[index]) {
          unsent := unsent + [t.(retries := t.retries + 1)];
        } else {
          complete := complete + [t];
        }
        index := index + 1;
      }
      assert outcomes[..index] == outcomes;
    }

    /** One flush with the store to itself: snapshot, send, mark done, re-append, with every way to fail. */
    method FlushOnce(outcomes: seq<Outcome>, v: Verdicts) returns (r: Result<bool, LoggerError>)
      requires |outcomes| <= |store|
      modifies this`store
      ensures (store, r) == Flushed(retryLimit, old(store), hasTransport, outcomes, v)
      ensures r.Ok? && Proper(old(store)) ==> forall i | 0 <= i < |old(store)| ::
                var t := old(store)[i];
                && (t.id !in Ids(store) <==>
                    && i < |outcomes|
                    && (outcomes[i] == Delivered || outcomes[i] == PermanentError || t.retries + 1 >= retryLimit))
                && (t.id in Ids(store) ==> (if i < |outcomes| then t.(retries := t.retries + 1) else t) in store)
    {
      hide CompleteOf, UnsentOf, Append, MarkDone, Proper, Ids;
      FlushDecidesAll(retryLimit, store, outcomes);
      if !v.load {
        return Err(StoreFailed);
      }
      var pending := store;
      if pending == [] {
        return Ok(true);
      }
      if !hasTransport {
        return Err(NoTransport);
      }
      var complete, unsent := Deliver(pending, outcomes);
      var ok := MarkTransactionsDone(complete, v.mark);
      if !ok {
        return Err(StoreFailed);
      }
      ok := AppendToStore(unsent, v.append);
      if !ok {
        return Err(StoreFailed);
      }
      r := Ok(unsent == []);
    }
  }
}
