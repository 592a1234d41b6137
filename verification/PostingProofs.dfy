/** What every run of concurrent post_entry calls keeps. */
module PostingProofs {
  import opened Common
  import opened Idempotency
  import opened Ledger
  import opened Posting
  import Balance
  import Decimals

  // ---- The invariant --------------------------------------------------------

  /** The outbox row announces exactly this entry: same id, key and currency, and an
      amount text that stores to the entry's amount and hashes to its payload hash. */
  ghost predicate Announces(row: OutboxRow, e: Entry) {
    && row.entryId == e.id && row.topic == "kova.ledger.entry.created"
    && row.payload.entryId == e.id && row.payload.key == e.key && row.payload.currency == e.currency
    && Supported(e.currency)
    && exists d: Decimals.Decimal :: AmountOf(d, row, e)
  }

  ghost predicate AmountOf(d: Decimals.Decimal, row: OutboxRow, e: Entry)
    requires Supported(e.currency)
  {
    && row.payload.amountText == Decimals.Text(d)
    && Decimals.IsAmount(d, e.amount)
    && e.payloadHash == Some(PayloadHash(e.debit, e.credit, d, e.currency))
  }

  /** Entries from position `legacy` on correspond one to one, in order, to outbox rows. */
  ghost predicate Paired(s: State, legacy: nat) {
    && legacy + |s.outbox| == |s.entries|
    && forall i :: 0 <= i < |s.outbox| ==> Announces(s.outbox[i], s.entries[legacy + i])
  }

  ghost predicate CallOk(s: State, c: Call) {
    match c.phase
    case Ready => ValidParams(c.params) && !HasId(s.entries, c.entryId)
    case Inserted => HolderOk(s, c)
    case Enqueued(row) => HolderOk(s, c) && row == NewOutboxRow(c, row.id)
    case Duplicate => ValidParams(c.params) && HasKey(s.entries, c.params.key)
    case Done(Ok(r)) => ResultOk(s, c, r)
    case _ => true
  }

  ghost predicate HolderOk(s: State, c: Call) {
    && ValidParams(c.params) && Storable(c.params)
    && !HasId(s.entries, c.entryId) && !HasKey(s.entries, c.params.key)
  }

  ghost predicate ResultOk(s: State, c: Call, r: Posted) {
    && ValidParams(c.params) && HasKey(s.entries, c.params.key)
    && var e := s.entries[Find(s.entries, c.params.key)];
      && e.id == r.entryId && e.createdAt == r.createdAt && e.payloadHash == Some(HashOf(c.params))
      && (!r.wasIdempotent ==> r.entryId == c.entryId)
  }

  /** No two calls have the same id, and no two hold the same key. */
  ghost predicate Apart(calls: map<nat, Call>) {
    && (forall c, d :: c in calls && d in calls && c != d ==> calls[c].entryId != calls[d].entryId)
    && (forall c, d :: c in calls && d in calls && c != d && Holds(calls[c]) && Holds(calls[d])
          ==> calls[c].params.key != calls[d].params.key)
  }

  ghost predicate Inv(s: State, legacy: nat) {
    && ValidTable(s.entries)
    && Paired(s, legacy)
    && (forall c :: c in s.calls ==> CallOk(s, s.calls[c]))
    && Apart(s.calls)
  }

  // ---- Preservation ---------------------------------------------------------

  lemma FindIsUnique(es: seq<Entry>, i: nat)
    requires ValidTable(es) && i < |es|
    ensures HasKey(es, es[i].key) && Find(es, es[i].key) == i
  {
  }

  /** A phase change that leaves the tables alone keeps the invariant when the new phase
      suits the call and does not take a lock someone else has. */
  lemma SetPhaseKeepsInv(s: State, legacy: nat, call: nat, phase: Phase)
    requires Inv(s, legacy) && call in s.calls
    requires CallOk(s, s.calls[call].(phase := phase))
    requires Holds(s.calls[call].(phase := phase)) && !Holds(s.calls[call])
      ==> !KeyLocked(s, s.calls[call].params.key)
    ensures Inv(SetPhase(s, call, phase), legacy)
  {
    var s' := SetPhase(s, call, phase);
    forall c | c in s'.calls
      ensures CallOk(s', s'.calls[c])
    {
      assert CallOk(s, s'.calls[c]);
    }
    assert Paired(s', legacy);
  }

  lemma StartKeepsInv(s: State, legacy: nat, call: nat, params: Params, entryId: Id, now: int)
    requires Inv(s, legacy)
    ensures Inv(StartStep(s, call, params, entryId, now), legacy)
  {
    var s' := StartStep(s, call, params, entryId, now);
    if s' != s {
      NewCallKeepsInv(s, legacy, call, s'.calls[call]);
    }
  }

  lemma NewCallKeepsInv(s: State, legacy: nat, call: nat, c: Call)
    requires Inv(s, legacy) && call !in s.calls && !IdUsed(s, c.entryId)
    requires c.phase == if ValidParams(c.params) then Ready else Done(Err(InvalidArgument))
    ensures Inv(s.(calls := s.calls[call := c]), legacy)
  {
    var s' := s.(calls := s.calls[call := c]);
    forall d | d in s'.calls
      ensures CallOk(s', s'.calls[d])
    {
      if d != call {
        SameTablesCallOk(s, s', s.calls[d]);
      }
    }
    NewCallApart(s.calls, call, c);
    assert Paired(s', legacy);
  }

  lemma NewCallApart(calls: map<nat, Call>, call: nat, c: Call)
    requires Apart(calls) && call !in calls && !Holds(c) && forall d :: d in calls ==> calls[d].entryId != c.entryId
    ensures Apart(calls[call := c])
  {
  }

  lemma SameTablesCallOk(s: State, s': State, c: Call)
    requires CallOk(s, c) && s'.entries == s.entries
    ensures CallOk(s', c)
  {
  }

  lemma PairedPush(s: State, legacy: nat, e: Entry, row: OutboxRow)
    requires Paired(s, legacy) && Announces(row, e)
    ensures Paired(Append(s, e, row), legacy)
  {
    var s' := Append(s, e, row);
    forall i | 0 <= i < |s'.outbox|
      ensures Announces(s'.outbox[i], s'.entries[legacy + i])
    {
      if i < |s.outbox| {
        assert Announces(s.outbox[i], s.entries[legacy + i]);
      }
    }
  }

  lemma ValidTablePush(es: seq<Entry>, e: Entry)
    requires ValidTable(es) && ValidEntry(e) && !HasId(es, e.id) && !HasKey(es, e.key)
    ensures ValidTable(es + [e])
  {
    assert forall i :: 0 <= i < |es| ==> es[i].id != e.id && es[i].key != e.key;
  }

  /** Committing the row of a lock holder: every other call keeps what it knew. */
  lemma AppendKeepsInv(s: State, legacy: nat, call: nat, result: Result<Posted>)
    requires Inv(s, legacy) && call in s.calls && s.calls[call].phase.Enqueued?
    requires Supported(s.calls[call].params.currency)
    requires result.Ok? ==> result.value == Posted(s.calls[call].entryId, false, s.calls[call].createdAt)
    ensures Inv(Finish(Append(s, NewEntry(s.calls[call]), s.calls[call].phase.row), call, result), legacy)
  {
    var c := s.calls[call];
    var e := NewEntry(c);
    var s' := Finish(Append(s, e, c.phase.row), call, result);
    assert CallOk(s, c);
    Decimals.StoredIsAmount(c.params.amount);
    assert AmountOf(c.params.amount, c.phase.row, e);
    ValidTablePush(s.entries, e);
    PairedPush(s, legacy, e, c.phase.row);
    assert Paired(s', legacy);
    forall d | d in s'.calls
      ensures CallOk(s', s'.calls[d])
    {
      if d == call {
        FindIsUnique(s'.entries, |s.entries|);
      } else {
        assert CallOk(s, s.calls[d]);
        AppendKeepsCall(s, s', s.calls[d], e);
      }
    }
  }

  lemma AppendKeepsCall(s: State, s': State, c: Call, e: Entry)
    requires ValidTable(s'.entries) && s'.entries == s.entries + [e]
    requires CallOk(s, c) && c.entryId != e.id && (Holds(c) ==> c.params.key != e.key)
    ensures CallOk(s', c)
  {
    var es, es' := s.entries, s'.entries;
    assert forall i :: 0 <= i < |es| ==> es'[i] == es[i];
    assert HasKey(es, c.params.key) ==> HasKey(es', c.params.key);
    if HasKey(es, c.params.key) {
      FindIsUnique(es', Find(es, c.params.key));
    }
  }

  lemma InsertKeepsInv(s: State, legacy: nat, call: nat, fails: bool)
    requires Inv(s, legacy)
    ensures Inv(InsertStep(s, call, fails), legacy)
  {
    if InsertStep(s, call, fails) != s {
      assert CallOk(s, s.calls[call]);
      SetPhaseKeepsInv(s, legacy, call, InsertStep(s, call, fails).calls[call].phase);
    }
  }

  lemma EnqueueKeepsInv(s: State, legacy: nat, call: nat, outboxId: Id, fails: bool)
    requires Inv(s, legacy)
    ensures Inv(EnqueueStep(s, call, outboxId, fails), legacy)
  {
    if EnqueueStep(s, call, outboxId, fails) != s {
      assert CallOk(s, s.calls[call]);
      SetPhaseKeepsInv(s, legacy, call, EnqueueStep(s, call, outboxId, fails).calls[call].phase);
    }
  }

  lemma CommitKeepsInv(s: State, legacy: nat, call: nat, outcome: CommitOutcome)
    requires Inv(s, legacy)
    ensures Inv(CommitStep(s, call, outcome), legacy)
  {
    if CommitStep(s, call, outcome) != s {
      if outcome.NotApplied? {
        SetPhaseKeepsInv(s, legacy, call, Done(Err(Database)));
      } else {
        var c := s.calls[call];
        AppendKeepsInv(s, legacy, call,
                       if outcome.Applied? then Ok(Posted(c.entryId, false, c.createdAt)) else Err(Database));
      }
    }
  }

  lemma LookupKeepsInv(s: State, legacy: nat, call: nat, fails: bool)
    requires Inv(s, legacy)
    ensures Inv(LookupStep(s, call, fails), legacy)
  {
    if call in s.calls && s.calls[call].phase == Duplicate {
      var c := s.calls[call];
      assert CallOk(s, c);
      var r := if fails then Err(Database) else LookupResult(s.entries, c.params);
      if r.Ok? {
        assert ResultOk(s, c, r.value);
      }
      SetPhaseKeepsInv(s, legacy, call, Done(r));
    }
  }

  lemma StepKeepsInv(s: State, legacy: nat, ev: Event)
    requires Inv(s, legacy)
    ensures Inv(Step(s, ev), legacy)
  {
    match ev
    case Start(call, params, entryId, now) => StartKeepsInv(s, legacy, call, params, entryId, now);
    case Insert(call, fails) => InsertKeepsInv(s, legacy, call, fails);
    case Enqueue(call, outboxId, fails) => EnqueueKeepsInv(s, legacy, call, outboxId, fails);
    case Commit(call, outcome) => CommitKeepsInv(s, legacy, call, outcome);
    case Lookup(call, fails) => LookupKeepsInv(s, legacy, call, fails);
    case Crash(call) =>
      if CrashStep(s, call) != s {
        SetPhaseKeepsInv(s, legacy, call, Crashed);
      }
  }

  lemma {:induction false} RunKeepsInv(s: State, legacy: nat, evs: seq<Event>)
    requires Inv(s, legacy)
    ensures Inv(Run(s, evs), legacy)
    decreases |evs|
  {
    if |evs| > 0 {
      RunKeepsInv(s, legacy, evs[..|evs| - 1]);
      StepKeepsInv(Run(s, evs[..|evs| - 1]), legacy, evs[|evs| - 1]);
    }
  }

  // ---- Theorems over runs ---------------------------------------------------

  ghost predicate Succeeded(s: State, c: nat) {
    c in s.calls && s.calls[c].phase.Done? && s.calls[c].phase.result.Ok?
  }

  ghost function ResultOf(s: State, c: nat): Posted
    requires Succeeded(s, c)
  {
    s.calls[c].phase.result.value
  }

  /** Idempotence under concurrency: in every interleaving with failures and crashes a key
      has at most one committed entry, all successes for it name that entry, at most one
      of them claims to have created it, and a success means the committed row carries
      the caller's payload hash. */
  lemma IdempotenceOverRuns(s0: State, evs: seq<Event>)
    requires Initial(s0)
    ensures var s := Run(s0, evs);
      && (forall i, j :: 0 <= i < j < |s.entries| ==> s.entries[i].key != s.entries[j].key)
      && (forall c :: Succeeded(s, c) ==>
            && Supported(s.calls[c].params.currency)
            && exists i :: 0 <= i < |s.entries| && Answers(s.entries[i], s.calls[c].params, ResultOf(s, c)))
      && (forall c, d :: Succeeded(s, c) && Succeeded(s, d) && s.calls[c].params.key == s.calls[d].params.key ==>
            && ResultOf(s, c).entryId == ResultOf(s, d).entryId
            && ResultOf(s, c).createdAt == ResultOf(s, d).createdAt
            && (!ResultOf(s, c).wasIdempotent && !ResultOf(s, d).wasIdempotent ==> c == d))
  {
    assert Inv(s0, |s0.entries|);
    RunKeepsInv(s0, |s0.entries|, evs);
    var s := Run(s0, evs);
    forall c | Succeeded(s, c)
      ensures && Supported(s.calls[c].params.currency)
              && exists i :: 0 <= i < |s.entries| && Answers(s.entries[i], s.calls[c].params, ResultOf(s, c))
    {
      assert CallOk(s, s.calls[c]);
      var i := Find(s.entries, s.calls[c].params.key);
      assert Answers(s.entries[i], s.calls[c].params, ResultOf(s, c));
    }
    forall c, d | Succeeded(s, c) && Succeeded(s, d) && s.calls[c].params.key == s.calls[d].params.key
      ensures && ResultOf(s, c).entryId == ResultOf(s, d).entryId
              && ResultOf(s, c).createdAt == ResultOf(s, d).createdAt
              && (!ResultOf(s, c).wasIdempotent && !ResultOf(s, d).wasIdempotent ==> c == d)
    {
      assert CallOk(s, s.calls[c]) && CallOk(s, s.calls[d]);
    }
  }

  /** The committed row with the caller's key is the one reported, and it was written
      for the same payload. */
  ghost predicate Answers(e: Entry, p: Params, r: Posted)
    requires Supported(p.currency)
  {
    && e.key == p.key && e.id == r.entryId && e.createdAt == r.createdAt
    && e.payloadHash == Some(HashOf(p))
  }

  /** A call whose payload differs from the committed row's never succeeds; it can only
      be refused, fail, crash or still be running. */
  lemma ConflictNeverSucceeds(s0: State, evs: seq<Event>, c: nat, i: nat)
    requires Initial(s0)
    requires var s := Run(s0, evs);
      && c in s.calls && i < |s.entries| && s.entries[i].key == s.calls[c].params.key
      && Supported(s.calls[c].params.currency)
      && s.entries[i].payloadHash != Some(HashOf(s.calls[c].params))
    ensures !Succeeded(Run(s0, evs), c)
  {
    IdempotenceOverRuns(s0, evs);
  }

  /** Entries and outbox rows stay in one-to-one correspondence, and every committed
      entry is a valid posting. */
  lemma EntryOutboxBijection(s0: State, evs: seq<Event>)
    requires Initial(s0)
    ensures Paired(Run(s0, evs), |s0.entries|)
    ensures ValidTable(Run(s0, evs).entries)
    ensures s0.entries <= Run(s0, evs).entries
  {
    assert Inv(s0, |s0.entries|);
    RunKeepsInv(s0, |s0.entries|, evs);
    RunAppends(s0, evs);
  }

  /** The tables only grow. */
  lemma {:induction false} RunAppends(s: State, evs: seq<Event>)
    ensures s.entries <= Run(s, evs).entries && s.outbox <= Run(s, evs).outbox
    decreases |evs|
  {
    if |evs| > 0 {
      RunAppends(s, evs[..|evs| - 1]);
      StepAppends(Run(s, evs[..|evs| - 1]), evs[|evs| - 1]);
    }
  }

  lemma StepAppends(s: State, ev: Event)
    ensures s.entries <= Step(s, ev).entries && s.outbox <= Step(s, ev).outbox
  {
  }

  /** After every run the balances of any set of accounts that contains both sides of
      every entry in a currency sum to zero. */
  lemma ConservationOverRuns(s0: State, evs: seq<Event>, accounts: set<Id>, currency: string)
    requires Initial(s0)
    requires forall i :: 0 <= i < |Run(s0, evs).entries| ==>
      Run(s0, evs).entries[i].debit in accounts && Run(s0, evs).entries[i].credit in accounts
    ensures Balance.Total(accounts, Run(s0, evs).entries, currency) == 0
  {
    Balance.Conservation(accounts, Run(s0, evs).entries, currency);
  }

  lemma OnlyCommitAppends(s: State, ev: Event)
    ensures Step(s, ev).entries == s.entries
      || (&& ev.Commit? && !ev.outcome.NotApplied? && ev.call in s.calls && s.calls[ev.call].phase.Enqueued?
          && Supported(s.calls[ev.call].params.currency)
          && Step(s, ev).entries == s.entries + [NewEntry(s.calls[ev.call])])
  {
  }

  /** The balances move as the posting says: its amount from its debit account to its
      credit account, in its currency, and nothing else. */
  ghost predicate MovesPosting(es: seq<Entry>, es': seq<Entry>, p: Params) {
    exists u :: Decimals.IsAmount(p.amount, u) && MovesUnits(es, es', p, u)
  }

  ghost predicate MovesUnits(es: seq<Entry>, es': seq<Entry>, p: Params, u: int) {
    && u > 0 && p.debit != p.credit
    && forall a: Id, cur: string :: Balance.Net(es', a, cur) - Balance.Net(es, a, cur)
         == if cur == p.currency && a == p.credit then u
            else if cur == p.currency && a == p.debit then -u
            else 0
  }

  /** One step either leaves every balance alone, or is the commit of one posting. */
  lemma StepMovesOnePosting(s: State, legacy: nat, ev: Event)
    requires Inv(s, legacy)
    ensures var s' := Step(s, ev);
      || s'.entries == s.entries
      || (&& ev.Commit? && !ev.outcome.NotApplied? && ev.call in s.calls
          && MovesPosting(s.entries, s'.entries, s.calls[ev.call].params))
  {
    OnlyCommitAppends(s, ev);
    var s' := Step(s, ev);
    if s'.entries != s.entries {
      var c := s.calls[ev.call];
      assert CallOk(s, c);
      var e := NewEntry(c);
      forall a: Id, cur: string
        ensures Balance.Net(s'.entries, a, cur) - Balance.Net(s.entries, a, cur)
             == if cur == e.currency && a == e.credit then e.amount
                else if cur == e.currency && a == e.debit then -e.amount
                else 0
      {
        Balance.EntryMovesTwoBalances(s.entries, e, a, cur);
      }
      Decimals.StoredIsAmount(c.params.amount);
      assert MovesUnits(s.entries, s'.entries, c.params, e.amount);
    }
  }

  // ---- Commits that were not acknowledged -----------------------------------

  /** At some point of the run the commit of call c was applied and reported as failed. */
  ghost predicate LostCommit(s0: State, evs: seq<Event>, c: nat) {
    exists k: nat :: k < |evs| && LostAt(s0, evs, k, c)
  }

  predicate LostAt(s0: State, evs: seq<Event>, k: nat, c: nat)
    requires k < |evs|
  {
    LosesCommit(Run(s0, evs[..k]), evs[k], c)
  }

  predicate LosesCommit(s: State, ev: Event, c: nat) {
    ev == Commit(c, AppliedUnacknowledged) && c in s.calls && s.calls[c].phase.Enqueued?
  }

  ghost predicate Created(s: State, c: nat) {
    Succeeded(s, c) && !ResultOf(s, c).wasIdempotent
  }

  lemma LostCommitPush(s0: State, evs: seq<Event>, c: nat)
    requires |evs| > 0
    ensures var n := |evs| - 1;
      LostCommit(s0, evs, c) <==> LostCommit(s0, evs[..n], c) || LosesCommit(Run(s0, evs[..n]), evs[n], c)
  {
    var n := |evs| - 1;
    if LostCommit(s0, evs[..n], c) {
      var k: nat :| k < n && LostAt(s0, evs[..n], k, c);
      LostAtPrefix(s0, evs, k, c);
    }
    if LostCommit(s0, evs, c) {
      var k: nat :| k < |evs| && LostAt(s0, evs, k, c);
      if k < n {
        LostAtPrefix(s0, evs, k, c);
      }
    }
    assert LostAt(s0, evs, n, c) == LosesCommit(Run(s0, evs[..n]), evs[n], c);
  }

  lemma LostAtPrefix(s0: State, evs: seq<Event>, k: nat, c: nat)
    requires k < |evs| - 1
    ensures LostAt(s0, evs[..|evs| - 1], k, c) == LostAt(s0, evs, k, c)
  {
    assert evs[..|evs| - 1][..k] == evs[..k];
  }

  /** What one event does to whether the entry of a call is in the table. */
  ghost predicate CommitsAs(s: State, s': State, ev: Event, c: nat)
    requires c in s.calls
  {
    && c in s'.calls && s'.calls[c].entryId == s.calls[c].entryId
    && (HasId(s'.entries, s.calls[c].entryId) <==>
          || HasId(s.entries, s.calls[c].entryId) || LosesCommit(s, ev, c)
          || (Created(s', c) && !Created(s, c)))
    && (Created(s, c) ==> Created(s', c))
  }

  lemma CommitCommits(s: State, call: nat, outcome: CommitOutcome, c: nat)
    requires c in s.calls
    requires call in s.calls && s.calls[call].phase.Enqueued? ==> Supported(s.calls[call].params.currency)
    requires call in s.calls && call != c ==> s.calls[call].entryId != s.calls[c].entryId
    ensures CommitsAs(s, CommitStep(s, call, outcome), Commit(call, outcome), c)
  {
    var s' := CommitStep(s, call, outcome);
    if s'.entries != s.entries {
      HasIdPush(s.entries, NewEntry(s.calls[call]), s.calls[c].entryId);
    }
  }

  lemma HasIdPush(es: seq<Entry>, e: Entry, id: Id)
    ensures HasId(es + [e], id) <==> HasId(es, id) || e.id == id
  {
    var es' := es + [e];
    assert es'[|es|] == e && forall i :: 0 <= i < |es| ==> es'[i] == es[i];
  }

  lemma LookupCommits(s: State, call: nat, fails: bool, c: nat)
    requires c in s.calls
    ensures CommitsAs(s, LookupStep(s, call, fails), Lookup(call, fails), c)
  {
  }

  lemma OtherCommits(s: State, ev: Event, c: nat)
    requires c in s.calls && !ev.Commit? && !ev.Lookup?
    ensures CommitsAs(s, Step(s, ev), ev, c)
  {
  }

  lemma StepCommits(s: State, legacy: nat, ev: Event, c: nat)
    requires Inv(s, legacy) && c in s.calls
    ensures CommitsAs(s, Step(s, ev), ev, c)
  {
    match ev
    case Commit(call, outcome) =>
      assert call in s.calls ==> CallOk(s, s.calls[call]);
      CommitCommits(s, call, outcome, c);
    case Lookup(call, fails) => LookupCommits(s, call, fails, c);
    case _ => OtherCommits(s, ev, c);
  }

  lemma StartIsNew(s: State, legacy: nat, ev: Event, c: nat)
    requires Inv(s, legacy) && c !in s.calls && c in Step(s, ev).calls
    ensures var s' := Step(s, ev);
      !HasId(s'.entries, s'.calls[c].entryId) && !Created(s', c) && !LosesCommit(s, ev, c)
  {
  }

  lemma {:induction false} EntryIffCommitted(s0: State, evs: seq<Event>, c: nat)
    requires Initial(s0) && c in Run(s0, evs).calls
    ensures var s := Run(s0, evs);
      HasId(s.entries, s.calls[c].entryId) <==> Created(s, c) || LostCommit(s0, evs, c)
    decreases |evs|
  {
    if |evs| > 0 {
      var n := |evs| - 1;
      var before := Run(s0, evs[..n]);
      assert Inv(s0, |s0.entries|);
      RunKeepsInv(s0, |s0.entries|, evs[..n]);
      LostCommitPush(s0, evs, c);
      if c in before.calls {
        EntryIffCommitted(s0, evs[..n], c);
        StepCommits(before, |s0.entries|, evs[n], c);
      } else {
        StartIsNew(before, |s0.entries|, evs[n], c);
        NoCallNoCommit(s0, evs[..n], c);
      }
    }
  }

  lemma {:induction false} NoCallNoCommit(s0: State, evs: seq<Event>, c: nat)
    requires c !in Run(s0, evs).calls
    ensures !LostCommit(s0, evs, c)
    decreases |evs|
  {
    if |evs| > 0 {
      LostCommitPush(s0, evs, c);
      NoCallNoCommit(s0, evs[..|evs| - 1], c);
    }
  }

  /** A call that was answered with a database error has its entry in the table exactly if
      its commit took effect and was reported as failed. */
  lemma FailedYetCommittedIff(s0: State, evs: seq<Event>, c: nat)
    requires Initial(s0) && c in Run(s0, evs).calls && Run(s0, evs).calls[c].phase == Done(Err(Database))
    ensures HasId(Run(s0, evs).entries, Run(s0, evs).calls[c].entryId) <==> LostCommit(s0, evs, c)
  {
    EntryIffCommitted(s0, evs, c);
  }

  // ---- What a committed entry carries ---------------------------------------

  /** The entry has all of the call's parameters, its id and its time. */
  ghost predicate Carries(e: Entry, c: Call) {
    && e.id == c.entryId && e.debit == c.params.debit && e.credit == c.params.credit
    && Decimals.IsAmount(c.params.amount, e.amount) && e.currency == c.params.currency
    && e.key == c.params.key && e.paymentId == c.params.paymentId && e.metadata == c.params.metadata
    && e.createdAt == c.createdAt && Supported(c.params.currency)
    && e.payloadHash == Some(PayloadHash(c.params.debit, c.params.credit, c.params.amount, c.params.currency))
  }

  /** The outbox row announces the call's posting. */
  ghost predicate RowCarries(row: OutboxRow, c: Call) {
    && row.entryId == c.entryId && row.topic == "kova.ledger.entry.created" && row.payload.entryId == c.entryId
    && row.payload.key == c.params.key && row.payload.currency == c.params.currency
    && row.payload.amountText == Decimals.Text(c.params.amount)
  }

  /** The service refuses these parameters. */
  predicate Refused(p: Params) {
    p.amount.mantissa <= 0 || p.debit == p.credit || p.currency !in {"NGN", "GBP", "USD", "KES"}
  }

  /** The column holds the amount: as ten-thousandths it is positive and has at most nineteen
      digits. */
  ghost predicate Fits(p: Params) {
    exists u :: Decimals.IsAmount(p.amount, u) && 0 < u < 10_000_000_000_000_000_000
  }

  lemma GuardsMean(p: Params)
    ensures ValidParams(p) <==> !Refused(p)
    ensures Storable(p) <==> Fits(p)
  {
    Decimals.StoredIsAmount(p.amount);
    if Fits(p) {
      var u :| Decimals.IsAmount(p.amount, u) && 0 < u < 10_000_000_000_000_000_000;
      Decimals.AmountUnique(p.amount, u, Decimals.StoredUnits(p.amount));
    }
  }

  ghost predicate CarriedIn(s: State, c: Call) {
    && (forall i :: 0 <= i < |s.entries| && s.entries[i].id == c.entryId ==> Carries(s.entries[i], c))
    && (forall r :: 0 <= r < |s.outbox| && s.outbox[r].entryId == c.entryId ==> RowCarries(s.outbox[r], c))
  }

  lemma NewRowsCarry(c: Call, outboxId: Id)
    requires Supported(c.params.currency)
    ensures Carries(NewEntry(c), c) && RowCarries(NewOutboxRow(c, outboxId), c)
  {
    Decimals.StoredIsAmount(c.params.amount);
  }

  lemma SameCall(s: State, ev: Event, c: nat)
    requires c in s.calls
    ensures c in Step(s, ev).calls && Step(s, ev).calls[c] == s.calls[c].(phase := Step(s, ev).calls[c].phase)
  {
  }

  /** Only a commit adds rows, those of its call. */
  lemma CommitAddsItsRows(s: State, legacy: nat, ev: Event)
    requires Inv(s, legacy)
    ensures var s' := Step(s, ev);
      || (s'.entries == s.entries && s'.outbox == s.outbox)
      || (&& ev.call in s.calls
          && exists e, row :: Carries(e, s.calls[ev.call]) && RowCarries(row, s.calls[ev.call])
               && s'.entries == s.entries + [e] && s'.outbox == s.outbox + [row])
  {
    if ev.Commit? && ev.call in s.calls && s.calls[ev.call].phase.Enqueued? {
      var c := s.calls[ev.call];
      assert CallOk(s, c);
      NewRowsCarry(c, c.phase.row.id);
    }
  }

  lemma CarriedPush(s: State, s': State, e: Entry, row: OutboxRow, c: Call, d: Call)
    requires CarriedIn(s, c) && Carries(e, d) && RowCarries(row, d)
    requires s'.entries == s.entries + [e] && s'.outbox == s.outbox + [row]
    requires d.entryId == c.entryId ==> d.params == c.params && d.createdAt == c.createdAt
    ensures CarriedIn(s', c)
  {
  }

  lemma NewCallCarried(s: State, legacy: nat, ev: Event, c: nat)
    requires Inv(s, legacy) && c !in s.calls && c in Step(s, ev).calls
    ensures CarriedIn(Step(s, ev), Step(s, ev).calls[c])
  {
    StartAddsCall(s, ev, c);
    FreshIdIsAnnouncedNowhere(s, legacy, Step(s, ev).calls[c].entryId);
  }

  lemma StartAddsCall(s: State, ev: Event, c: nat)
    requires c !in s.calls && c in Step(s, ev).calls
    ensures var s' := Step(s, ev);
      s'.entries == s.entries && s'.outbox == s.outbox && !HasId(s.entries, s'.calls[c].entryId)
  {
  }

  lemma FreshIdIsAnnouncedNowhere(s: State, legacy: nat, id: Id)
    requires Paired(s, legacy) && !HasId(s.entries, id)
    ensures forall r :: 0 <= r < |s.outbox| ==> s.outbox[r].entryId != id
  {
    forall r | 0 <= r < |s.outbox|
      ensures s.outbox[r].entryId != id
    {
      assert Announces(s.outbox[r], s.entries[legacy + r]);
    }
  }

  lemma InsertWaits(s: State, legacy: nat, holder: nat, waiter: nat)
    requires Inv(s, legacy) && HoldsKeyOf(s, holder, waiter)
    ensures Step(s, Insert(waiter, false)) == s
  {
    assert CallOk(s, s.calls[holder]);
    assert KeyLocked(s, s.calls[waiter].params.key);
    GuardsMean(s.calls[waiter].params);
  }

  /** The holder is about to commit; the waiter has the same key and is at its INSERT. */
  ghost predicate HoldsKeyOf(s: State, holder: nat, waiter: nat) {
    && holder in s.calls && waiter in s.calls && s.calls[holder].params.key == s.calls[waiter].params.key
    && s.calls[holder].phase.Enqueued? && s.calls[waiter].phase == Ready && Fits(s.calls[waiter].params)
  }

  lemma AbortFreesKey(s: State, legacy: nat, holder: nat, waiter: nat)
    requires Inv(s, legacy) && HoldsKeyOf(s, holder, waiter)
    ensures var s' := InsertStep(CommitStep(s, holder, NotApplied), waiter, false);
      waiter in s'.calls && s'.calls[waiter].phase == Inserted
  {
    assert CallOk(s, s.calls[holder]);
    GuardsMean(s.calls[waiter].params);
    LetGoFreesKey(s, legacy, holder, Done(Err(Database)));
    assert CommitStep(s, holder, NotApplied) == Finish(s, holder, Err(Database));
  }

  lemma LetGoFreesKey(s: State, legacy: nat, holder: nat, phase: Phase)
    requires Inv(s, legacy) && holder in s.calls && Holds(s.calls[holder]) && (phase.Done? || phase.Crashed?)
    ensures !KeyLocked(SetPhase(s, holder, phase), s.calls[holder].params.key)
  {
    var s' := SetPhase(s, holder, phase);
    forall c | c in s'.calls && Holds(s'.calls[c])
      ensures s'.calls[c].params.key != s.calls[holder].params.key
    {
      assert c != holder && s'.calls[c] == s.calls[c];
    }
  }

  lemma CommitIsFound(s: State, legacy: nat, holder: nat, waiter: nat, outcome: CommitOutcome)
    requires Inv(s, legacy) && HoldsKeyOf(s, holder, waiter) && !outcome.NotApplied?
    ensures var s1, h := CommitStep(s, holder, outcome), s.calls[holder];
      && waiter in s1.calls && s1.calls[waiter] == s.calls[waiter]
      && HasKey(s1.entries, h.params.key) && Supported(h.params.currency)
      && s1.entries[Find(s1.entries, h.params.key)] == NewEntry(h)
  {
    assert CallOk(s, s.calls[holder]);
    var s1 := CommitStep(s, holder, outcome);
    CommitKeepsInv(s, legacy, holder, outcome);
    assert s1.entries[|s.entries|] == NewEntry(s.calls[holder]);
    FindIsUnique(s1.entries, |s.entries|);
  }

  lemma FoundRowAnswers(s: State, waiter: nat, h: Call)
    requires waiter in s.calls && s.calls[waiter].phase == Ready && Fits(s.calls[waiter].params)
    requires !Refused(s.calls[waiter].params) && Supported(h.params.currency)
    requires HasKey(s.entries, s.calls[waiter].params.key)
    requires s.entries[Find(s.entries, s.calls[waiter].params.key)] == NewEntry(h)
    ensures var s', w := LookupStep(InsertStep(s, waiter, false), waiter, false), s.calls[waiter];
      waiter in s'.calls && s'.calls[waiter].phase == Done(
        if w.params.debit == h.params.debit && w.params.credit == h.params.credit
           && w.params.amount == h.params.amount && w.params.currency == h.params.currency
        then Ok(Posted(h.entryId, true, h.createdAt)) else Err(IdempotencyMismatch))
  {
    var p, q := s.calls[waiter].params, h.params;
    GuardsMean(p);
    PayloadHashDecidesPosting(p.debit, p.credit, p.amount, p.currency, q.debit, q.credit, q.amount, q.currency);
  }

  /** A call whose INSERT waits for another call that holds its key: nothing happens to it until
      that call commits; then it finds the row and answers with it, or refuses another payload;
      and if the commit fails, it takes the key. */
  lemma WaiterFollowsHolder(s: State, legacy: nat, holder: nat, waiter: nat, outcome: CommitOutcome)
    requires Inv(s, legacy) && HoldsKeyOf(s, holder, waiter)
    ensures Step(s, Insert(waiter, false)) == s
    ensures var s' := InsertStep(CommitStep(s, holder, outcome), waiter, false);
      if outcome.NotApplied? then waiter in s'.calls && s'.calls[waiter].phase == Inserted
      else
        var s'', h, w := LookupStep(s', waiter, false), s.calls[holder], s.calls[waiter];
        && waiter in s''.calls
        && s''.calls[waiter].phase == Done(
             if w.params.debit == h.params.debit && w.params.credit == h.params.credit
                && w.params.amount == h.params.amount && w.params.currency == h.params.currency
             then Ok(Posted(h.entryId, true, h.createdAt)) else Err(IdempotencyMismatch))
  {
    InsertWaits(s, legacy, holder, waiter);
    if outcome.NotApplied? {
      AbortFreesKey(s, legacy, holder, waiter);
    } else {
      assert CallOk(s, s.calls[waiter]);
      GuardsMean(s.calls[waiter].params);
      CommitIsFound(s, legacy, holder, waiter, outcome);
      FoundRowAnswers(CommitStep(s, holder, outcome), waiter, s.calls[holder]);
    }
  }

  /** A call that crashes before its commit writes nothing and lets go of its key: the call that
      waited for it takes it. */
  lemma CrashFreesKey(s: State, legacy: nat, holder: nat, waiter: nat)
    requires Inv(s, legacy) && HoldsKeyOf(s, holder, waiter)
    ensures var s' := Step(s, Crash(holder));
      && s'.entries == s.entries && s'.outbox == s.outbox && waiter in s'.calls
      && InsertStep(s', waiter, false).calls[waiter].phase == Inserted
  {
    assert CallOk(s, s.calls[holder]);
    GuardsMean(s.calls[waiter].params);
    LetGoFreesKey(s, legacy, holder, Crashed);
    assert Step(s, Crash(holder)) == SetPhase(s, holder, Crashed);
  }

  /** In every run: the entry with a call's id, if there is one, and the outbox row that names
      it are that call's posting, field by field. */
  lemma {:induction false} CommittedAsPosted(s0: State, evs: seq<Event>, c: nat)
    requires Initial(s0) && c in Run(s0, evs).calls
    ensures CarriedIn(Run(s0, evs), Run(s0, evs).calls[c])
    decreases |evs|
  {
    if |evs| > 0 {
      var n := |evs| - 1;
      var before := Run(s0, evs[..n]);
      assert Inv(s0, |s0.entries|);
      RunKeepsInv(s0, |s0.entries|, evs[..n]);
      if c in before.calls {
        CommittedAsPosted(s0, evs[..n], c);
        CarriedStep(before, |s0.entries|, evs[n], c);
      } else {
        NewCallCarried(before, |s0.entries|, evs[n], c);
      }
    }
  }

  lemma CarriedStep(s: State, legacy: nat, ev: Event, c: nat)
    requires Inv(s, legacy) && c in s.calls && CarriedIn(s, s.calls[c])
    ensures c in Step(s, ev).calls && CarriedIn(Step(s, ev), Step(s, ev).calls[c])
  {
    SameCall(s, ev, c);
    CommitAddsItsRows(s, legacy, ev);
    var s' := Step(s, ev);
    if !(s'.entries == s.entries && s'.outbox == s.outbox) {
      var e, row :| Carries(e, s.calls[ev.call]) && RowCarries(row, s.calls[ev.call])
        && s'.entries == s.entries + [e] && s'.outbox == s.outbox + [row];
      CarriedPush(s, s', e, row, s.calls[c], s.calls[ev.call]);
    }
  }
}
