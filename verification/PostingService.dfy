/** post_entry itself, run statement by statement against the ledger database while other
    calls run in between. Its contract says that whatever the others do, what happened is
    a run of the transition system, so everything proved about runs holds of it. */
module PostingService {
  import opened Common
  import opened Idempotency
  import opened Ledger
  import opened Posting
  import PostingProofs

  /** Which statements the database fails, and how the commit ends. */
  datatype Faults = Faults(insertFails: bool, enqueueFails: bool, commit: CommitOutcome, lookupFails: bool)

  const NO_FAULTS := Faults(false, false, Applied, false)

  /** No event of this script belongs to the given call. */
  predicate Foreign(evs: seq<Event>, call: nat) {
    forall i :: 0 <= i < |evs| ==> evs[i].call != call
  }

  lemma {:induction false} ForeignKeepsCall(s: State, evs: seq<Event>, call: nat)
    requires Foreign(evs, call) && call in s.calls
    ensures call in Run(s, evs).calls && Run(s, evs).calls[call] == s.calls[call]
    decreases |evs|
  {
    if |evs| > 0 {
      ForeignKeepsCall(s, evs[..|evs| - 1], call);
    }
  }

  /** The state after a call that nothing disturbs. */
  function Sequential(s: State, call: nat, params: Params, entryId: Id, now: int, outboxId: Id): State {
    var started := StartStep(s, call, params, entryId, now);
    var inserted := InsertStep(started, call, false);
    if call !in inserted.calls then started
    else if inserted.calls[call].phase == Inserted
    then CommitStep(EnqueueStep(inserted, call, outboxId, false), call, Applied)
    else LookupStep(inserted, call, false)
  }

  /** What an undisturbed call answers, and that it writes both tables exactly when it
      created the entry, with its parameters in both rows. */
  lemma SequentialMeaning(s: State, call: nat, params: Params, entryId: Id, now: int, outboxId: Id)
    requires call !in s.calls && !IdUsed(s, entryId) && !KeyLocked(s, params.key)
    ensures var s' := Sequential(s, call, params, entryId, now, outboxId);
      var me := Call(params, entryId, now, Ready);
      && call in s'.calls && s'.calls[call].phase.Done?
      && var r := s'.calls[call].phase.result;
        && r == (if PostingProofs.Refused(params) then Err(InvalidArgument)
                 else if !PostingProofs.Fits(params) then Err(Database)
                 else if HasKey(s.entries, params.key) then LookupResult(s.entries, params)
                 else Ok(Posted(entryId, false, now)))
        && (if PostingProofs.Refused(params) || !PostingProofs.Fits(params) || HasKey(s.entries, params.key)
            then s'.entries == s.entries && s'.outbox == s.outbox
            else exists e, row :: PostingProofs.Carries(e, me) && PostingProofs.RowCarries(row, me)
                   && row.id == outboxId && s'.entries == s.entries + [e] && s'.outbox == s.outbox + [row])
  {
    PostingProofs.GuardsMean(params);
    var started := StartStep(s, call, params, entryId, now);
    assert !KeyLocked(started, params.key) by {
      forall c | c in started.calls && Holds(started.calls[c])
        ensures started.calls[c].params.key != params.key
      {
        assert c in s.calls ==> s.calls[c] == started.calls[c];
      }
    }
    if ValidParams(params) {
      var me := Call(params, entryId, now, Ready);
      PostingProofs.NewRowsCarry(me, outboxId);
    }
  }

  /** Once a call for a key succeeded, in any later state an undisturbed retry with the
      same payload returns the same entry, flagged as idempotent, and one with another
      payload is refused; neither writes anything. */
  lemma RetryReturnsOriginal(s: State, legacy: nat, c: nat, call: nat, params: Params, entryId: Id, now: int,
                             outboxId: Id)
    requires PostingProofs.Inv(s, legacy) && PostingProofs.Succeeded(s, c)
    requires params.key == s.calls[c].params.key && !PostingProofs.Refused(params) && PostingProofs.Fits(params)
    requires call !in s.calls && !IdUsed(s, entryId)
    ensures var s' := Sequential(s, call, params, entryId, now, outboxId);
      var original := s.calls[c];
      && s'.entries == s.entries && s'.outbox == s.outbox
      && call in s'.calls
      && s'.calls[call].phase == Done(
           if params.debit == original.params.debit && params.credit == original.params.credit
              && params.amount == original.params.amount && params.currency == original.params.currency
           then Ok(PostingProofs.ResultOf(s, c).(wasIdempotent := true))
           else Err(IdempotencyMismatch))
  {
    PostingProofs.GuardsMean(params);
    assert PostingProofs.CallOk(s, s.calls[c]);
    assert !KeyLocked(s, params.key) by {
      forall h | h in s.calls && Holds(s.calls[h])
        ensures s.calls[h].params.key != params.key
      {
        assert PostingProofs.CallOk(s, s.calls[h]);
      }
    }
    SequentialMeaning(s, call, params, entryId, now, outboxId);
    var p, q := params, s.calls[c].params;
    PayloadHashDecidesPosting(p.debit, p.credit, p.amount, p.currency, q.debit, q.credit, q.amount, q.currency);
  }

  /** What an undisturbed call with the key of any committed row answers, whoever wrote the
      row: the row's entry if the payload is the same, a mismatch if it differs, and a
      database error if the row is from before there were payload hashes. It writes nothing. */
  lemma RetryOfCommittedRow(s: State, legacy: nat, i: nat, call: nat, params: Params, entryId: Id, now: int,
                            outboxId: Id)
    requires PostingProofs.Inv(s, legacy) && i < |s.entries| && params.key == s.entries[i].key
    requires !PostingProofs.Refused(params) && PostingProofs.Fits(params)
    requires call !in s.calls && !IdUsed(s, entryId)
    ensures var s', e := Sequential(s, call, params, entryId, now, outboxId), s.entries[i];
      && s'.entries == s.entries && s'.outbox == s.outbox && call in s'.calls
      && s'.calls[call].phase == Done(
           match e.payloadHash
           case None => Err(Database)
           case Some(h) =>
             if h == PayloadHash(params.debit, params.credit, params.amount, params.currency)
             then Ok(Posted(e.id, true, e.createdAt))
             else Err(IdempotencyMismatch))
  {
    PostingProofs.GuardsMean(params);
    assert !KeyLocked(s, params.key) by {
      forall h | h in s.calls && Holds(s.calls[h])
        ensures s.calls[h].params.key != params.key
      {
        assert PostingProofs.CallOk(s, s.calls[h]);
        assert HasKey(s.entries, s.entries[i].key);
      }
    }
    PostingProofs.FindIsUnique(s.entries, i);
    SequentialMeaning(s, call, params, entryId, now, outboxId);
  }

  class LedgerDatabase {
    var entries: seq<Entry>
    var outbox: seq<OutboxRow>
    var calls: map<nat, Call>

    constructor (entries: seq<Entry>)
      ensures State() == Posting.State(entries, [], map[])
    {
      this.entries, outbox, calls := entries, [], map[];
    }

    function State(): State
      reads this
    {
      Posting.State(entries, outbox, calls)
    }

    /** One statement of one call. */
    method Execute(ev: Event)
      modifies this
      ensures State() == Step(old(State()), ev)
    {
      match ev
      case Start(call, params, entryId, now) =>
        if call !in calls && !IdUsed(State(), entryId) {
          var phase := if ValidParams(params) then Ready else Done(Err(InvalidArgument));
          calls := calls[call := Call(params, entryId, now, phase)];
        }
      case Insert(call, fails) => ExecuteInsert(call, fails);
      case Enqueue(call, outboxId, fails) =>
        if call in calls && calls[call].phase == Inserted {
          var c := calls[call];
          calls := calls[call := c.(phase := if fails then Done(Err(Database))
                                             else Enqueued(NewOutboxRow(c, outboxId)))];
        }
      case Commit(call, outcome) => ExecuteCommit(call, outcome);
      case Lookup(call, fails) =>
        if call in calls && calls[call].phase == Duplicate {
          var c := calls[call];
          calls := calls[call := c.(phase := Done(if fails then Err(Database) else LookupResult(entries, c.params)))];
        }
      case Crash(call) =>
        if call in calls && !calls[call].phase.Done? {
          calls := calls[call := calls[call].(phase := Crashed)];
        }
    }

    method ExecuteInsert(call: nat, fails: bool)
      modifies this
      ensures State() == InsertStep(old(State()), call, fails)
    {
      if call in calls && calls[call].phase == Ready {
        var c := calls[call];
        if fails || !Storable(c.params) {
          calls := calls[call := c.(phase := Done(Err(Database)))];
        } else if HasKey(entries, c.params.key) {
          calls := calls[call := c.(phase := Duplicate)];
        } else if !KeyLocked(State(), c.params.key) {
          calls := calls[call := c.(phase := Inserted)];
        }
      }
    }

    method ExecuteCommit(call: nat, outcome: CommitOutcome)
      modifies this
      ensures State() == CommitStep(old(State()), call, outcome)
    {
      if call in calls && calls[call].phase.Enqueued? && Supported(calls[call].params.currency) {
        var c := calls[call];
        if outcome != NotApplied {
          entries := entries + [NewEntry(c)];
          outbox := outbox + [c.phase.row];
        }
        calls := calls[call := c.(phase := Done(if outcome == Applied then Ok(Posted(c.entryId, false, c.createdAt))
                                                else Err(Database)))];
      }
    }

    /** Other calls run for a while. */
    method Others(evs: seq<Event>)
      modifies this
      ensures State() == Run(old(State()), evs)
    {
      var i := 0;
      while i < |evs|
        invariant 0 <= i <= |evs|
        invariant State() == Run(old(State()), evs[..i])
      {
        Execute(evs[i]);
        RunPush(old(State()), evs[..i], evs[i]);
        assert evs[..i] + [evs[i]] == evs[..i + 1];
        i := i + 1;
      }
      assert evs[..i] == evs;
    }

    /** Run the others, then one statement of this call, and extend the trace. */
    method Interleave(ghost start: State, evs: seq<Event>, ev: Event, ghost trace: seq<Event>)
        returns (ghost trace': seq<Event>)
      requires State() == Run(start, trace)
      modifies this
      ensures State() == Step(Run(old(State()), evs), ev)
      ensures trace' == trace + evs + [ev]
      ensures State() == Run(start, trace')
    {
      Others(evs);
      Execute(ev);
      RunConcat(start, trace, evs);
      RunPush(start, trace + evs, ev);
      trace' := trace + evs + [ev];
    }

    /** The INSERT, waiting while another transaction holds the key. `waits` scripts what
        the others do during the wait; a wait that outlasts it is a lock timeout. */
    method InsertAndWait(ghost start: State, call: nat, fails: bool, others: seq<Event>, waits: seq<seq<Event>>,
                         ghost trace: seq<Event>)
        returns (ghost trace': seq<Event>)
      requires State() == Run(start, trace)
      requires call in calls && calls[call].phase == Ready
      requires Foreign(others, call) && forall i :: 0 <= i < |waits| ==> Foreign(waits[i], call)
      modifies this
      ensures State() == Run(start, trace')
      ensures call in calls && calls[call].phase in {Inserted, Duplicate, Done(Err(Database))}
      ensures calls[call] == old(calls[call]).(phase := calls[call].phase)
      ensures fails ==> calls[call].phase == Done(Err(Database))
      ensures others == [] && !fails && !KeyLocked(old(State()), old(calls[call].params.key))
        ==> State() == InsertStep(old(State()), call, false)
    {
      ForeignKeepsCall(State(), others, call);
      trace' := Interleave(start, others, Insert(call, fails), trace);
      if calls[call].phase == Ready {
        var w := 0;
        while w < |waits| && calls[call].phase == Ready
          invariant 0 <= w <= |waits|
          invariant State() == Run(start, trace') && !fails
          invariant call in calls && calls[call] == old(calls[call]).(phase := calls[call].phase)
          invariant calls[call].phase in {Ready, Inserted, Duplicate, Done(Err(Database))}
        {
          ForeignKeepsCall(State(), waits[w], call);
          trace' := Interleave(start, waits[w], Insert(call, false), trace');
          w := w + 1;
        }
        if calls[call].phase == Ready {
          trace' := Interleave(start, [], Insert(call, true), trace');
        }
      }
    }

    /** The outbox INSERT; a failure drops the transaction. */
    method EnqueueRow(ghost start: State, call: nat, outboxId: Id, fails: bool, others: seq<Event>,
                      ghost trace: seq<Event>)
        returns (ghost trace': seq<Event>)
      requires State() == Run(start, trace)
      requires call in calls && calls[call].phase == Inserted
      requires Foreign(others, call)
      modifies this
      ensures State() == Run(start, trace')
      ensures call in calls && calls[call] == old(calls[call]).(phase := calls[call].phase)
      ensures calls[call].phase.Enqueued? || calls[call].phase == Done(Err(Database))
      ensures calls[call].phase.Enqueued? <==> !fails
      ensures others == [] ==> State() == EnqueueStep(old(State()), call, outboxId, fails)
    {
      ForeignKeepsCall(State(), others, call);
      trace' := Interleave(start, others, Enqueue(call, outboxId, fails), trace);
    }

    method CommitTransaction(ghost start: State, call: nat, outcome: CommitOutcome, others: seq<Event>,
                             ghost trace: seq<Event>)
        returns (ghost trace': seq<Event>)
      requires State() == Run(start, trace)
      requires call in calls && calls[call].phase.Enqueued? && Supported(calls[call].params.currency)
      requires Foreign(others, call)
      modifies this
      ensures State() == Run(start, trace')
      ensures call in calls && calls[call] == old(calls[call]).(phase := calls[call].phase)
      ensures calls[call].phase == Done(if outcome.Applied?
                                        then Ok(Posted(calls[call].entryId, false, calls[call].createdAt))
                                        else Err(Database))
      ensures others == [] ==> State() == CommitStep(old(State()), call, outcome)
    {
      ForeignKeepsCall(State(), others, call);
      trace' := Interleave(start, others, Commit(call, outcome), trace);
    }

    /** What follows the INSERT: the outbox row and the commit, or the SELECT after a duplicate
        key, or nothing if it failed. */
    method FinishTransaction(ghost start: State, call: nat, outboxId: Id, faults: Faults, others: seq<seq<Event>>,
                             ghost trace: seq<Event>)
        returns (ghost trace': seq<Event>)
      requires State() == Run(start, trace)
      requires call in calls && calls[call].phase in {Inserted, Duplicate, Done(Err(Database))}
      requires Supported(calls[call].params.currency)
      requires forall i :: 0 <= i < |others| ==> Foreign(others[i], call)
      modifies this
      ensures State() == Run(start, trace')
      ensures call in calls && calls[call] == old(calls[call]).(phase := calls[call].phase)
      ensures calls[call].phase.Done? && calls[call].phase.result != Err(InvalidArgument)
      ensures old(calls[call]).phase.Done? ==> calls[call] == old(calls[call])
      ensures calls[call].phase.result.Ok? ==>
        var r := calls[call].phase.result.value;
        if r.wasIdempotent then !faults.lookupFails
        else
          && !faults.enqueueFails && faults.commit.Applied?
          && r == Posted(calls[call].entryId, false, calls[call].createdAt)
      ensures others == [] && old(calls[call]).phase == Inserted && !faults.enqueueFails
        ==> State() == CommitStep(EnqueueStep(old(State()), call, outboxId, false), call, faults.commit)
      ensures others == [] && old(calls[call]).phase == Duplicate && !faults.lookupFails
        ==> State() == LookupStep(old(State()), call, false)
      ensures old(calls[call]).phase.Done? ==> State() == old(State())
    {
      trace' := trace;
      if calls[call].phase == Inserted {
        trace' := EnqueueRow(start, call, outboxId, faults.enqueueFails, At(others, 1), trace);
        if calls[call].phase.Enqueued? {
          trace' := CommitTransaction(start, call, faults.commit, At(others, 2), trace');
        }
      } else if calls[call].phase == Duplicate {
        ForeignKeepsCall(State(), At(others, 1), call);
        trace' := Interleave(start, At(others, 1), Lookup(call, faults.lookupFails), trace);
      }
    }

    /** post_entry. `others` scripts what the other calls do before each statement. */
    method PostEntry(call: nat, params: Params, entryId: Id, now: int, outboxId: Id, faults: Faults,
                     others: seq<seq<Event>>, waits: seq<seq<Event>>)
        returns (result: Result<Posted>, ghost trace: seq<Event>)
      requires call !in calls && !IdUsed(State(), entryId)
      requires forall i :: 0 <= i < |others| ==> Foreign(others[i], call)
      requires forall i :: 0 <= i < |waits| ==> Foreign(waits[i], call)
      modifies this
      ensures State() == Run(old(State()), trace)
      ensures call in calls && calls[call] == Call(params, entryId, now, Done(result))
      ensures result == Err(InvalidArgument) <==> PostingProofs.Refused(params)
      ensures !PostingProofs.Refused(params) && faults.insertFails ==> result == Err(Database)
      ensures result.Ok? && result.value.wasIdempotent ==> !faults.insertFails && !faults.lookupFails
      ensures result.Ok? && !result.value.wasIdempotent ==>
        && !faults.insertFails && !faults.enqueueFails && faults.commit.Applied?
        && result.value.entryId == entryId && result.value.createdAt == now
      ensures others == [] && faults == NO_FAULTS && !KeyLocked(old(State()), params.key)
        ==> State() == Sequential(old(State()), call, params, entryId, now, outboxId)
    {
      ghost var start := State();
      trace := Interleave(start, [], Start(call, params, entryId, now), []);
      if params.amount.mantissa <= 0 {
        return Err(InvalidArgument), trace;
      }
      if params.debit == params.credit {
        return Err(InvalidArgument), trace;
      }
      if !Supported(params.currency) {
        return Err(InvalidArgument), trace;
      }
      PostingProofs.GuardsMean(params);
      ghost var started := State();
      assert KeyLocked(started, params.key) ==> KeyLocked(start, params.key);
      trace := InsertAndWait(start, call, faults.insertFails, At(others, 0), waits, trace);
      trace := FinishTransaction(start, call, outboxId, faults, others, trace);
      result := calls[call].phase.result;
    }
  }
}
