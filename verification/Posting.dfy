/** services/kova-ledger/src/posting.rs as a transition system. Any number of calls to
    post_entry run at once; each event is one SQL statement of one call, or a crash.
    Statements may fail, a commit may take effect and still be reported as failed, and an
    INSERT waits while another open transaction holds its idempotency key. */
module Posting {
  import opened Common
  import opened Idempotency
  import opened Ledger
  import Decimals

  const TOPIC: string := "kova.ledger.entry.created"

  datatype Params = Params(debit: Id, credit: Id, amount: Decimals.Decimal, currency: string, key: string,
                           paymentId: Option<Id>, metadata: Option<string>)

  datatype Posted = Posted(entryId: Id, wasIdempotent: bool, createdAt: int)

  datatype Payload = Payload(entryId: Id, key: string, amountText: string, currency: string)

  datatype OutboxRow = OutboxRow(id: Id, entryId: Id, topic: string, payload: Payload)

  /** Where a call stands. Inserted and Enqueued hold the row lock of the key. */
  datatype Phase =
    | Ready
    | Inserted
    | Enqueued(row: OutboxRow)
    | Duplicate
    | Done(result: Result<Posted>)
    | Crashed

  datatype Call = Call(params: Params, entryId: Id, createdAt: int, phase: Phase)

  datatype State = State(entries: seq<Entry>, outbox: seq<OutboxRow>, calls: map<nat, Call>)

  datatype CommitOutcome = Applied | AppliedUnacknowledged | NotApplied

  datatype Event =
    | Start(call: nat, params: Params, entryId: Id, now: int)
    | Insert(call: nat, fails: bool)
    | Enqueue(call: nat, outboxId: Id, fails: bool)
    | Commit(call: nat, outcome: CommitOutcome)
    | Lookup(call: nat, fails: bool)
    | Crash(call: nat)

  // ---- Guards and rows ------------------------------------------------------

  predicate ValidParams(p: Params) {
    p.amount.mantissa > 0 && p.debit != p.credit && Supported(p.currency)
  }

  /** The column accepts the amount and the CHECK on it holds. */
  predicate Storable(p: Params) {
    0 < Decimals.StoredUnits(p.amount) < Decimals.COLUMN_LIMIT
  }

  function HashOf(p: Params): Digest
    requires Supported(p.currency)
  {
    PayloadHash(p.debit, p.credit, p.amount, p.currency)
  }

  function NewEntry(c: Call): Entry
    requires Supported(c.params.currency)
  {
    Entry(c.entryId, c.params.debit, c.params.credit, Decimals.StoredUnits(c.params.amount), c.params.currency,
          c.params.key, Some(HashOf(c.params)), c.params.paymentId, c.params.metadata, c.createdAt)
  }

  function NewOutboxRow(c: Call, outboxId: Id): OutboxRow {
    OutboxRow(outboxId, c.entryId, TOPIC,
              Payload(c.entryId, c.params.key, Decimals.Text(c.params.amount), c.params.currency))
  }

  predicate Holds(c: Call) {
    c.phase.Inserted? || c.phase.Enqueued?
  }

  predicate KeyLocked(s: State, key: string) {
    exists c :: c in s.calls && Holds(s.calls[c]) && s.calls[c].params.key == key
  }

  predicate IdUsed(s: State, id: Id) {
    HasId(s.entries, id) || exists c :: c in s.calls && s.calls[c].entryId == id
  }

  // ---- Steps ----------------------------------------------------------------

  function SetPhase(s: State, call: nat, phase: Phase): State
    requires call in s.calls
  {
    s.(calls := s.calls[call := s.calls[call].(phase := phase)])
  }

  function Finish(s: State, call: nat, result: Result<Posted>): State
    requires call in s.calls
  {
    SetPhase(s, call, Done(result))
  }

  function StartStep(s: State, call: nat, params: Params, entryId: Id, now: int): State {
    if call in s.calls || IdUsed(s, entryId) then s
    else s.(calls := s.calls[call := Call(params, entryId, now,
                                          if ValidParams(params) then Ready else Done(Err(InvalidArgument)))])
  }

  function InsertStep(s: State, call: nat, fails: bool): State {
    if call !in s.calls || s.calls[call].phase != Ready then s
    else
      var p := s.calls[call].params;
      if fails || !Storable(p) then Finish(s, call, Err(Database))
      else if HasKey(s.entries, p.key) then SetPhase(s, call, Duplicate)
      else if KeyLocked(s, p.key) then s
      else SetPhase(s, call, Inserted)
  }

  function EnqueueStep(s: State, call: nat, outboxId: Id, fails: bool): State {
    if call !in s.calls || s.calls[call].phase != Inserted then s
    else if fails then Finish(s, call, Err(Database))
    else SetPhase(s, call, Enqueued(NewOutboxRow(s.calls[call], outboxId)))
  }

  function CommitStep(s: State, call: nat, outcome: CommitOutcome): State {
    if call !in s.calls || !s.calls[call].phase.Enqueued? || !Supported(s.calls[call].params.currency) then s
    else
      var c := s.calls[call];
      match outcome
      case NotApplied => Finish(s, call, Err(Database))
      case AppliedUnacknowledged =>
        Finish(Append(s, NewEntry(c), c.phase.row), call, Err(Database))
      case Applied =>
        Finish(Append(s, NewEntry(c), c.phase.row), call, Ok(Posted(c.entryId, false, c.createdAt)))
  }

  function Append(s: State, e: Entry, row: OutboxRow): State {
    s.(entries := s.entries + [e], outbox := s.outbox + [row])
  }

  /** The SELECT after a duplicate key. A NULL hash does not decode as text. */
  function LookupResult(es: seq<Entry>, p: Params): Result<Posted> {
    if !HasKey(es, p.key) then Err(Database)
    else
      var e := es[Find(es, p.key)];
      match e.payloadHash
      case None => Err(Database)
      case Some(h) =>
        if !Supported(p.currency) || h != HashOf(p) then Err(IdempotencyMismatch)
        else Ok(Posted(e.id, true, e.createdAt))
  }

  function LookupStep(s: State, call: nat, fails: bool): State {
    if call !in s.calls || s.calls[call].phase != Duplicate then s
    else Finish(s, call, if fails then Err(Database) else LookupResult(s.entries, s.calls[call].params))
  }

  function CrashStep(s: State, call: nat): State {
    if call !in s.calls || s.calls[call].phase.Done? then s
    else SetPhase(s, call, Crashed)
  }

  /** One event. An event that the call is not ready for changes nothing. */
  function Step(s: State, ev: Event): State {
    match ev
    case Start(call, params, entryId, now) => StartStep(s, call, params, entryId, now)
    case Insert(call, fails) => InsertStep(s, call, fails)
    case Enqueue(call, outboxId, fails) => EnqueueStep(s, call, outboxId, fails)
    case Commit(call, outcome) => CommitStep(s, call, outcome)
    case Lookup(call, fails) => LookupStep(s, call, fails)
    case Crash(call) => CrashStep(s, call)
  }

  function Run(s: State, evs: seq<Event>): State {
    if |evs| == 0 then s else Step(Run(s, evs[..|evs| - 1]), evs[|evs| - 1])
  }

  lemma RunPush(s: State, evs: seq<Event>, ev: Event)
    ensures Run(s, evs + [ev]) == Step(Run(s, evs), ev)
  {
    assert (evs + [ev])[..|evs|] == evs;
  }

  lemma {:induction false} RunConcat(s: State, a: seq<Event>, b: seq<Event>)
    ensures Run(s, a + b) == Run(Run(s, a), b)
    decreases |b|
  {
    if |b| == 0 {
      assert a + b == a;
    } else {
      RunConcat(s, a, b[..|b| - 1]);
      assert (a + b)[..|a + b| - 1] == a + b[..|b| - 1];
    }
  }

  /** A service that starts on a table written before the outbox and the hash existed. */
  ghost predicate Initial(s: State) {
    ValidTable(s.entries) && s.outbox == [] && s.calls == map[]
  }
}
