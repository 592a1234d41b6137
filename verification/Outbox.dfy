/** services/kova-ledger/src/outbox.rs as a transition system with any number of workers.
    A batch locks up to ten pending rows, publishes and marks them one by one inside a
    transaction, and commits or aborts. A row is named by its position in the table. */
module Outbox {

  type Worker = nat

  const BATCH_SIZE: nat := 10

  /** A transaction of one worker: the rows it locked, how many it has published and how
      many it has marked. Marks become visible at commit. */
  datatype Batch = Batch(rows: seq<nat>, published: nat, marked: nat) {
    /** The rows this batch has published. */
    function Sent(): seq<nat> {
      if published <= |rows| then rows[..published] else rows
    }
  }

  /** The table (creation times and published_at), the open transactions, and the history:
      every publication in order, and the aborted batches. */
  datatype State = State(created: seq<int>, marked: set<nat>, open: map<Worker, Batch>,
                         log: seq<nat>, aborted: seq<Batch>)

  datatype CommitOutcome = Applied | AppliedUnacknowledged | NotApplied

  datatype Event =
    | Insert(createdAt: int)
    | Select(worker: Worker, rows: seq<nat>)
    | Publish(worker: Worker, delivered: bool, acknowledged: bool)
    | Mark(worker: Worker, fails: bool)
    | Commit(worker: Worker, outcome: CommitOutcome)
    | Crash(worker: Worker)

  // ---- SELECT ... LIMIT 10 FOR UPDATE SKIP LOCKED ----------------------------

  predicate Locked(s: State, r: nat) {
    exists w :: w in s.open && r in s.open[w].rows
  }

  predicate Pending(s: State, r: nat) {
    r < |s.created| && r !in s.marked
  }

  predicate Available(s: State, r: nat) {
    Pending(s, r) && !Locked(s, r)
  }

  predicate Distinct(rows: seq<nat>) {
    forall i, j :: 0 <= i < j < |rows| ==> rows[i] != rows[j]
  }

  /** An answer the query may give: available rows in creation order, none of the rows
      left out created before one taken, and ten of them unless there are no more. */
  predicate Selection(s: State, rows: seq<nat>) {
    && |rows| <= BATCH_SIZE && Distinct(rows)
    && (forall i :: 0 <= i < |rows| ==> Available(s, rows[i]))
    && (forall i, j :: 0 <= i < j < |rows| ==> s.created[rows[i]] <= s.created[rows[j]])
    && (forall r :: 0 <= r < |s.created| && Available(s, r) && r !in rows ==>
          |rows| == BATCH_SIZE && forall i :: 0 <= i < |rows| ==> s.created[rows[i]] <= s.created[r])
  }

  // ---- Steps ----------------------------------------------------------------

  function Abort(s: State, w: Worker): State
    requires w in s.open
  {
    s.(open := s.open - {w}, aborted := s.aborted + [s.open[w]])
  }

  function SelectStep(s: State, w: Worker, rows: seq<nat>): State {
    if w in s.open || !Selection(s, rows) || rows == [] then s
    else s.(open := s.open[w := Batch(rows, 0, 0)])
  }

  /** Sending the next row. A send may reach the broker and still be reported failed; a
      reported failure aborts the batch. */
  function PublishStep(s: State, w: Worker, delivered: bool, acknowledged: bool): State {
    if w !in s.open then s
    else
      var b := s.open[w];
      if b.marked != b.published || b.published >= |b.rows| then s
      else
        var sent := if delivered || acknowledged
                    then s.(log := s.log + [b.rows[b.published]],
                            open := s.open[w := b.(published := b.published + 1)])
                    else s;
        if acknowledged then sent else Abort(sent, w)
  }

  function MarkStep(s: State, w: Worker, fails: bool): State {
    if w !in s.open || s.open[w].published != s.open[w].marked + 1 then s
    else if fails then Abort(s, w)
    else s.(open := s.open[w := s.open[w].(marked := s.open[w].marked + 1)])
  }

  function CommitStep(s: State, w: Worker, outcome: CommitOutcome): State {
    if w !in s.open || s.open[w].marked != |s.open[w].rows| then s
    else if outcome == NotApplied then Abort(s, w)
    else s.(open := s.open - {w}, marked := s.marked + (set r | r in s.open[w].rows))
  }

  function Step(s: State, ev: Event): State {
    match ev
    case Insert(t) => s.(created := s.created + [t])
    case Select(w, rows) => SelectStep(s, w, rows)
    case Publish(w, delivered, acknowledged) => PublishStep(s, w, delivered, acknowledged)
    case Mark(w, fails) => MarkStep(s, w, fails)
    case Commit(w, outcome) => CommitStep(s, w, outcome)
    case Crash(w) => if w in s.open then Abort(s, w) else s
  }

  function Run(s: State, evs: seq<Event>): State {
    if |evs| == 0 then s else Step(Run(s, evs[..|evs| - 1]), evs[|evs| - 1])
  }

  lemma RunPush(s: State, evs: seq<Event>, ev: Event)
    ensures Run(s, evs + [ev]) == Step(Run(s, evs), ev)
  {
    assert (evs + [ev])[..|evs|] == evs;
  }

  lemma {:induction false} RunConcat(s: State, a: seq<Event>, b: seq<Event>)
    ensures Run(s, a + b) == Run(Run(s, a), b)
    decreases |b|
  {
    if |b| == 0 {
      assert a + b == a;
    } else {
      RunConcat(s, a, b[..|b| - 1]);
      assert a + b == a + b[..|b| - 1] + [b[|b| - 1]];
      RunPush(s, a + b[..|b| - 1], b[|b| - 1]);
    }
  }

  const EMPTY := State([], {}, map[], [], [])
}
