/** process_batch and the worker loop, run against the outbox table while other workers
    and new rows come in between. */
module OutboxWorker {
  import opened Common
  import opened Outbox
  import opened OutboxOrder
  import opened OutboxTimes

  /** How the broker and the database treat one batch. */
  datatype Send = Send(delivered: bool, acknowledged: bool)
  datatype Faults = Faults(selectFails: bool, sends: seq<Send>, marks: seq<bool>, commit: CommitOutcome)

  const NO_FAULTS := Faults(false, [], [], Applied)

  function SendAt(f: Faults, i: nat): Send {
    if i < |f.sends| then f.sends[i] else Send(true, true)
  }

  function MarkFails(f: Faults, i: nat): bool {
    i < |f.marks| && f.marks[i]
  }

  /** Each of the first n sends is acknowledged and its row marked. */
  predicate AllSent(f: Faults, n: nat) {
    forall i: nat :: i < n ==> SendAt(f, i).acknowledged && !MarkFails(f, i)
  }

  /** No event of this script is a step of the given worker. */
  predicate Foreign(evs: seq<Event>, w: Worker) {
    forall i :: 0 <= i < |evs| ==> evs[i].Insert? || evs[i].worker != w
  }

  predicate ForeignScript(script: seq<seq<Event>>, w: Worker) {
    forall i :: 0 <= i < |script| ==> Foreign(script[i], w)
  }

  lemma {:induction false} ForeignKeepsWorker(s: State, evs: seq<Event>, w: Worker)
    requires Foreign(evs, w)
    ensures w in Run(s, evs).open <==> w in s.open
    ensures w in s.open ==> Run(s, evs).open[w] == s.open[w]
    decreases |evs|
  {
    if |evs| > 0 {
      ForeignKeepsWorker(s, evs[..|evs| - 1], w);
    }
  }

  class OutboxDatabase {
    var created: seq<int>
    var marked: set<nat>
    var open: map<Worker, Batch>
    ghost var log: seq<nat>
    ghost var aborted: seq<Batch>

    constructor ()
      ensures State() == EMPTY
    {
      created, marked, open, log, aborted := [], {}, map[], [], [];
    }

    ghost function State(): State
      reads this
    {
      Outbox.State(created, marked, open, log, aborted)
    }

    ghost method Drop(w: Worker)
      requires w in open
      modifies this`aborted
      ensures aborted == old(aborted) + [open[w]]
    {
      aborted := aborted + [open[w]];
    }

    /** One statement or one send of one worker. */
    method Execute(ev: Event)
      modifies this
      ensures State() == Step(old(State()), ev)
    {
      match ev
      case Insert(t) => created := created + [t];
      case Select(w, rows) =>
        if w !in open && Selection(Outbox.State(created, marked, open, [], []), rows) && rows != [] {
          assert Selection(State(), rows);
          open := open[w := Batch(rows, 0, 0)];
        } else {
          assert w !in open && rows != [] ==> !Selection(State(), rows);
        }
      case Publish(w, delivered, acknowledged) =>
        if w in open && open[w].marked == open[w].published < |open[w].rows| {
          if delivered || acknowledged {
            log := log + [open[w].rows[open[w].published]];
            open := open[w := open[w].(published := open[w].published + 1)];
          }
          if !acknowledged {
            Drop(w);
            open := open - {w};
          }
        }
      case Mark(w, fails) =>
        if w in open && open[w].published == open[w].marked + 1 {
          if fails {
            Drop(w);
            open := open - {w};
          } else {
            open := open[w := open[w].(marked := open[w].marked + 1)];
          }
        }
      case Commit(w, outcome) =>
        if w in open && open[w].marked == |open[w].rows| {
          if outcome == NotApplied {
            Drop(w);
          } else {
            marked := marked + (set r | r in open[w].rows);
          }
          open := open - {w};
        }
      case Crash(w) =>
        if w in open {
          Drop(w);
          open := open - {w};
        }
    }

    method Others(evs: seq<Event>)
      modifies this
      ensures State() == Run(old(State()), evs)
    {
      var i := 0;
      while i < |evs|
        invariant 0 <= i <= |evs|
        invariant State() == Run(old(State()), evs[..i])
      {
        Execute(evs[i]);
        RunPush(old(State()), evs[..i], evs[i]);
        assert evs[..i] + [evs[i]] == evs[..i + 1];
        i := i + 1;
      }
      assert evs[..i] == evs;
    }

    /** Run the others, then one step of this worker, and extend the trace. */
    method Interleave(ghost start: State, evs: seq<Event>, ev: Event, ghost trace: seq<Event>)
        returns (ghost trace': seq<Event>)
      requires State() == Run(start, trace)
      modifies this
      ensures State() == Step(Run(old(State()), evs), ev)
      ensures State() == Run(start, trace')
    {
      Others(evs);
      Execute(ev);
      RunConcat(start, trace, evs);
      RunPush(start, trace + evs, ev);
      trace' := trace + evs + [ev];
    }

    predicate Free(r: nat)
      reads this
    {
      r < |created| && r !in marked && forall w :: w in open ==> r !in open[w].rows
    }

    /** The oldest available row not taken yet. */
    method Oldest(taken: seq<nat>) returns (best: Option<nat>)
      ensures best.Some? ==> Available(State(), best.value) && best.value !in taken
      ensures best.Some? ==> forall r :: 0 <= r < |created| && Available(State(), r) && r !in taken ==>
        created[best.value] <= created[r]
      ensures best.None? ==> forall r :: 0 <= r < |created| && Available(State(), r) ==> r in taken
    {
      best := None;
      var i := 0;
      while i < |created|
        invariant 0 <= i <= |created|
        invariant best.Some? ==> Available(State(), best.value) && best.value !in taken
        invariant forall r :: 0 <= r < i && Available(State(), r) && r !in taken ==>
          best.Some? && created[best.value] <= created[r]
      {
        assert Free(i) <==> Available(State(), i);
        if Free(i) && i !in taken && (best.None? || created[i] < created[best.value]) {
          best := Some(i);
        }
        i := i + 1;
      }
    }

    /** The locking query: pick the oldest available row up to ten times. */
    method SelectPending() returns (rows: seq<nat>)
      ensures Selection(State(), rows)
    {
      rows := [];
      var more := true;
      while more && |rows| < BATCH_SIZE
        invariant |rows| <= BATCH_SIZE && Distinct(rows)
        invariant forall i :: 0 <= i < |rows| ==> Available(State(), rows[i])
        invariant forall i, j :: 0 <= i < j < |rows| ==> created[rows[i]] <= created[rows[j]]
        invariant forall r, i :: 0 <= r < |created| && Available(State(), r) && r !in rows && 0 <= i < |rows| ==>
          created[rows[i]] <= created[r]
        invariant !more ==> forall r :: 0 <= r < |created| && Available(State(), r) ==> r in rows
        decreases BATCH_SIZE - |rows|, more
      {
        var next := Oldest(rows);
        match next
        case None => more := false;
        case Some(r) => rows := rows + [r];
      }
    }

    /** process_batch. `others` scripts what the others do before the query, before each
        send and mark, and before the commit. */
    method ProcessBatch(w: Worker, faults: Faults, others: seq<seq<Event>>)
        returns (result: Result<nat>, ghost rows: seq<nat>, ghost trace: seq<Event>)
      requires w !in open && ForeignScript(others, w)
      modifies this
      ensures State() == Run(old(State()), trace)
      ensures w !in open
      ensures faults.selectFails ==> result.Err? && State() == Run(old(State()), At(others, 0))
      ensures !faults.selectFails ==> Selection(Run(old(State()), At(others, 0)), rows)
      ensures result == Ok(0) <==> !faults.selectFails && rows == []
      ensures result.Ok? ==> result.value == |rows| && forall i :: 0 <= i < |rows| ==> rows[i] in marked
      ensures result.Ok?
              <==> !faults.selectFails && (rows == [] || (faults.commit == Applied && AllSent(faults, |rows|)))
      ensures faults == NO_FAULTS && others == [] ==>
        result == Ok(|rows|) && State() == old(State()).(marked := old(marked) + (set r | r in rows),
                                                         log := old(log) + rows)
    {
      ghost var start := State();
      Others(At(others, 0));
      trace := At(others, 0);
      ForeignKeepsWorker(start, At(others, 0), w);
      if faults.selectFails {
        return Err(Database), [], trace;
      }
      var selected := SelectPending();
      rows := selected;
      if |selected| == 0 {
        assert Run(start, trace) == State();
        assert others == [] ==> (set r | r in rows) == {} && log + rows == log;
        return Ok(0), rows, trace;
      }
      trace := Interleave(start, [], Select(w, selected), trace);
      var ok;
      ok, trace := SendAll(start, w, selected, faults, others, trace);
      if !ok {
        return Err(Database), rows, trace;
      }
      ForeignKeepsWorker(State(), At(others, 2 * |selected| + 1), w);
      trace := Interleave(start, At(others, 2 * |selected| + 1), Commit(w, faults.commit), trace);
      if faults.commit != Applied {
        return Err(Database), rows, trace;
      }
      result := Ok(|selected|);
    }

    /** The loop over the rows; the first failure drops the batch. */
    method SendAll(ghost start: State, w: Worker, rows: seq<nat>, faults: Faults, others: seq<seq<Event>>,
                   ghost trace: seq<Event>)
        returns (ok: bool, ghost trace': seq<Event>)
      requires State() == Run(start, trace) && ForeignScript(others, w)
      requires w in open && open[w] == Batch(rows, 0, 0)
      modifies this
      ensures State() == Run(start, trace')
      ensures if ok then w in open && open[w] == Batch(rows, |rows|, |rows|) else w !in open
      ensures ok <==> AllSent(faults, |rows|)
      ensures faults == NO_FAULTS && others == [] ==>
        ok && State() == old(State()).(open := old(open)[w := Batch(rows, |rows|, |rows|)], log := old(log) + rows)
    {
      trace' := trace;
      ok := true;
      var i := 0;
      while i < |rows|
        invariant 0 <= i <= |rows|
        invariant State() == Run(start, trace')
        invariant w in open && open[w] == Batch(rows, i, i) && AllSent(faults, i)
        invariant faults == NO_FAULTS && others == [] ==>
          State() == old(State()).(open := old(open)[w := Batch(rows, i, i)], log := old(log) + rows[..i])
      {
        ok, trace' := SendOne(start, w, rows, i, faults, others, trace');
        if !ok {
          return false, trace';
        }
        assert rows[..i + 1] == rows[..i] + [rows[i]];
        i := i + 1;
      }
      assert rows[..i] == rows;
    }

    /** One row: send, then mark. */
    method SendOne(ghost start: State, w: Worker, rows: seq<nat>, i: nat, faults: Faults, others: seq<seq<Event>>,
                   ghost trace: seq<Event>)
        returns (ok: bool, ghost trace': seq<Event>)
      requires State() == Run(start, trace) && ForeignScript(others, w)
      requires i < |rows| && w in open && open[w] == Batch(rows, i, i)
      modifies this
      ensures State() == Run(start, trace')
      ensures if ok then w in open && open[w] == Batch(rows, i + 1, i + 1) else w !in open
      ensures ok <==> SendAt(faults, i).acknowledged && !MarkFails(faults, i)
      ensures faults == NO_FAULTS && others == [] ==>
        ok && State() == old(State()).(open := old(open)[w := Batch(rows, i + 1, i + 1)], log := old(log) + [rows[i]])
    {
      var send := SendAt(faults, i);
      ForeignKeepsWorker(State(), At(others, 2 * i + 1), w);
      trace' := Interleave(start, At(others, 2 * i + 1), Publish(w, send.delivered, send.acknowledged), trace);
      if !send.acknowledged {
        return false, trace';
      }
      assert open[w] == Batch(rows, i + 1, i);
      ForeignKeepsWorker(State(), At(others, 2 * i + 2), w);
      trace' := Interleave(start, At(others, 2 * i + 2), Mark(w, MarkFails(faults, i)), trace');
      ok := !MarkFails(faults, i);
    }

    /** One undisturbed batch of a single worker. */
    method NextBatch() returns (count: nat, ghost rows: seq<nat>)
      requires open == map[]
      modifies this
      ensures count == |rows| && Selection(old(State()), rows)
      ensures State() == After(old(State()), rows)
    {
      ghost var before := State();
      var result;
      ghost var trace;
      result, rows, trace := ProcessBatch(0, NO_FAULTS, []);
      assert Run(before, []) == before;
      count := result.value;
      assert (set r | r in rows) == Elements(rows);
    }

    /** With nothing failing, nothing locked and no new rows, a single worker publishes the
        pending rows once each, older ones first, in ceil(pending / 10) batches, and the
        next batch finds nothing. Which rows were marked before and how creation times are
        spread over the table does not matter; if they are in strict order behind the
        marked rows, so are the publications. */
    method Drain() returns (batches: nat, ghost order: seq<nat>)
      requires open == map[]
      modifies this
      ensures State() == After(old(State()), order)
      ensures Distinct(order) && InTimeOrder(order, created)
      ensures forall r :: r in order <==> r in PendingRows(old(State()))
      ensures batches == (|PendingRows(old(State()))| + 9) / 10 && PendingRows(State()) == {}
      ensures forall m: nat :: Idle(old(State()), m) ==> order == Span(m, |created| - m)
    {
      ghost var start := State();
      var count;
      batches := 0;
      count, order := NextBatch();
      DrainStart(start, State(), order);
      while count != 0
        invariant Draining(start, State(), order, count, batches)
        decreases PendingRows(State()), count
      {
        batches := batches + 1;
        ghost var before, last := State(), count;
        ghost var rows;
        count, rows := NextBatch();
        DrainStep(start, before, order, last, rows, State(), batches);
        order := order + rows;
      }
      DrainEnds(start, order);
    }
  }

  ghost function Elements(rows: seq<nat>): (xs: set<nat>)
    ensures forall r :: r in xs <==> r in rows
  {
    set r | r in rows
  }

  /** The state after the given rows were published and marked. */
  ghost function After(s: State, rows: seq<nat>): State {
    s.(marked := s.marked + Elements(rows), log := s.log + rows)
  }

  ghost function PendingRows(s: State): set<nat> {
    set r: nat | r < |s.created| && r !in s.marked
  }

  /** Where draining stands: the rows published so far were pending at the start, and none
      of them is newer than one still pending. */
  ghost predicate Drained(start: State, order: seq<nat>) {
    && Distinct(order) && InTimeOrder(order, start.created)
    && (forall r :: r in order ==> r in PendingRows(start))
    && (forall i, r :: 0 <= i < |order| && r in PendingRows(After(start, order)) ==>
          start.created[order[i]] <= start.created[r])
  }

  /** All batches before the last one were full, and so was that one if rows are left. An
      empty one means that none are. */
  ghost predicate Counted(s: State, published: nat, last: nat, batches: nat) {
    && last <= 10
    && if last == 0 then PendingRows(s) == {} && batches == (published + 9) / 10
       else published == 10 * batches + last && (PendingRows(s) != {} ==> last == 10)
  }

  /** Where draining stands after a batch of `last` rows that is not counted yet. */
  ghost predicate Draining(start: State, s: State, order: seq<nat>, last: nat, batches: nat) {
    && start.open == map[] && s == After(start, order) && Drained(start, order)
    && Counted(s, |order|, last, batches)
  }

  lemma PendingAvailable(s: State, r: nat)
    requires s.open == map[]
    ensures r in PendingRows(s) <==> Available(s, r)
  {
  }

  /** What a batch picks from unlocked rows. */
  lemma PickedPending(s: State, rows: seq<nat>)
    requires s.open == map[] && Selection(s, rows)
    ensures forall r :: r in rows ==> r in PendingRows(s)
    ensures forall r :: r in PendingRows(After(s, rows)) ==> r in PendingRows(s) && |rows| == 10
    ensures forall i, r :: 0 <= i < |rows| && r in PendingRows(After(s, rows)) ==> s.created[rows[i]] <= s.created[r]
  {
    forall r | r in rows
      ensures r in PendingRows(s)
    {
      var i :| 0 <= i < |rows| && rows[i] == r;
      assert Available(s, rows[i]);
    }
    forall r | r in PendingRows(After(s, rows))
      ensures r in PendingRows(s) && |rows| == 10
      ensures forall i :: 0 <= i < |rows| ==> s.created[rows[i]] <= s.created[r]
    {
      PendingAvailable(s, r);
    }
  }

  lemma AfterTwice(s: State, a: seq<nat>, b: seq<nat>)
    ensures After(After(s, a), b) == After(s, a + b)
  {
    assert Elements(a) + Elements(b) == Elements(a + b);
    assert s.log + a + b == s.log + (a + b);
  }

  lemma JoinInTimeOrder(a: seq<nat>, b: seq<nat>, times: seq<int>)
    requires InTimeOrder(a, times) && InTimeOrder(b, times) && Distinct(a) && Distinct(b)
    requires forall i, j :: 0 <= i < |a| && 0 <= j < |b| ==> a[i] != b[j] && times[a[i]] <= times[b[j]]
    ensures InTimeOrder(a + b, times) && Distinct(a + b)
  {
  }

  /** One more batch. */
  lemma DrainMore(start: State, order: seq<nat>, rows: seq<nat>)
    requires start.open == map[] && Drained(start, order) && Selection(After(start, order), rows)
    ensures Drained(start, order + rows)
    ensures PendingRows(After(start, order + rows)) != {} ==> |rows| == 10
    ensures |rows| > 0 ==> PendingRows(After(start, order)) != {}
  {
    var s := After(start, order);
    AfterTwice(start, order, rows);
    PickedPending(s, rows);
    forall i, j | 0 <= i < |order| && 0 <= j < |rows|
      ensures order[i] != rows[j] && start.created[order[i]] <= start.created[rows[j]]
    {
      assert rows[j] in PendingRows(s) && order[i] in order;
    }
    forall j | 0 <= j < |rows|
      ensures rows[j] < |start.created|
    {
      assert rows[j] in rows;
    }
    JoinInTimeOrder(order, rows, start.created);
    if |rows| > 0 {
      assert rows[0] in rows;
    }
  }

  lemma DrainStart(start: State, s: State, rows: seq<nat>)
    requires start.open == map[] && Selection(start, rows) && s == After(start, rows)
    ensures Draining(start, s, rows, |rows|, 0)
  {
    assert start == After(start, []) && Drained(start, []);
    assert [] + rows == rows;
    DrainMore(start, [], rows);
  }

  lemma DrainStep(start: State, s: State, order: seq<nat>, last: nat, rows: seq<nat>, s': State, batches: nat)
    requires batches > 0 && Draining(start, s, order, last, batches - 1) && last > 0
    requires Selection(s, rows) && s' == After(s, rows)
    ensures Draining(start, s', order + rows, |rows|, batches)
    ensures PendingRows(s') <= PendingRows(s) && (|rows| > 0 ==> PendingRows(s') < PendingRows(s))
  {
    AfterTwice(start, order, rows);
    DrainMore(start, order, rows);
    BatchShrinks(s, rows);
  }

  /** A batch that published something leaves fewer rows pending. */
  lemma BatchShrinks(s: State, rows: seq<nat>)
    requires Selection(s, rows)
    ensures PendingRows(After(s, rows)) <= PendingRows(s)
    ensures |rows| > 0 ==> PendingRows(After(s, rows)) < PendingRows(s)
  {
    if |rows| > 0 {
      assert Available(s, rows[0]);
      assert rows[0] in PendingRows(s) && rows[0] !in PendingRows(After(s, rows));
    }
  }

  lemma DrainEnds(start: State, order: seq<nat>)
    requires Drained(start, order) && PendingRows(After(start, order)) == {}
    ensures forall r :: r in order <==> r in PendingRows(start)
    ensures |order| == |PendingRows(start)|
    ensures forall m: nat :: Idle(start, m) ==> order == Span(m, |start.created| - m)
  {
    forall r | r in PendingRows(start)
      ensures r in order
    {
      assert r !in PendingRows(After(start, order));
    }
    assert Elements(order) == PendingRows(start);
    DistinctCount(order);
    forall m: nat | Idle(start, m)
      ensures order == Span(m, |start.created| - m)
    {
      IdleOrder(start, m, order);
    }
  }

  lemma IdleOrder(s: State, m: nat, order: seq<nat>)
    requires Idle(s, m) && Distinct(order) && InTimeOrder(order, s.created)
    requires forall r :: r in order <==> r in PendingRows(s)
    ensures order == Span(m, |s.created| - m)
  {
    AscendingIsSpan(order, m, |s.created|);
  }

  lemma {:induction false} DistinctCount(rows: seq<nat>)
    requires Distinct(rows)
    ensures |Elements(rows)| == |rows|
    decreases |rows|
  {
    if |rows| > 0 {
      var init, last := rows[..|rows| - 1], rows[|rows| - 1];
      DistinctCount(init);
      assert last !in init;
      assert Elements(rows) == Elements(init) + {last};
    } else {
      assert Elements(rows) == {};
    }
  }

  /** The numbers from m to n in ascending order. */
  lemma {:induction false} AscendingIsSpan(rows: seq<nat>, m: nat, n: nat)
    requires m <= n && Ascending(rows) && forall r :: r in rows <==> m <= r < n
    ensures rows == Span(m, n - m)
    decreases n - m
  {
    if |rows| > 0 {
      assert rows[0] in rows;
      LastIsGreatest(rows, n - 1);
      var init, last := rows[..|rows| - 1], |rows| - 1;
      forall r
        ensures r in init <==> m <= r < n - 1
      {
        if r in init {
          var i :| 0 <= i < |init| && init[i] == r;
          assert rows[i] < rows[last] && rows[i] in rows;
        }
        if m <= r < n - 1 {
          assert r in rows;
        }
      }
      AscendingIsSpan(init, m, n - 1);
      assert rows == init + [n - 1];
    } else {
      assert m !in rows;
    }
  }

  lemma LastIsGreatest(rows: seq<nat>, x: nat)
    requires Ascending(rows) && x in rows && forall r :: r in rows ==> r <= x
    ensures |rows| > 0 && rows[|rows| - 1] == x
  {
    var k :| 0 <= k < |rows| && rows[k] == x;
    assert rows[|rows| - 1] in rows;
  }

  // ---- The worker loop ------------------------------------------------------

  /** Failures at the end of the history. */
  function TrailingErrors(outcomes: seq<Result<nat>>): nat {
    if |outcomes| == 0 || outcomes[|outcomes| - 1].Ok? then 0
    else 1 + TrailingErrors(outcomes[..|outcomes| - 1])
  }

  function Pow2(n: nat): nat {
    if n == 0 then 1 else 2 * Pow2(n - 1)
  }

  /** How long the worker sleeps, in milliseconds, after a history of batches: 100 ms when
      nothing was pending, not at all after work, and after k failures in a row 2^k
      seconds, at most 30. */
  function SleepAfter(outcomes: seq<Result<nat>>): nat
    requires |outcomes| > 0
  {
    match outcomes[|outcomes| - 1]
    case Ok(n) => if n == 0 then 100 else 0
    case Err(_) =>
      var k := TrailingErrors(outcomes);
      1000 * (if k <= 4 then Pow2(k) else 30)
  }

  /** In milliseconds: a tenth of a second when nothing was pending, none after work; 2, 4, 8
      and 16 seconds after one to four failures in a row, and 30 from the fifth on. */
  lemma SleepMeans(outcomes: seq<Result<nat>>, failures: nat)
    requires 0 < |outcomes| && failures <= |outcomes|
    requires forall i :: |outcomes| - failures <= i < |outcomes| ==> outcomes[i].Err?
    requires failures < |outcomes| ==> outcomes[|outcomes| - failures - 1].Ok?
    ensures failures == 0 ==> SleepAfter(outcomes) == if outcomes[|outcomes| - 1].value == 0 then 100 else 0
    ensures failures == 1 ==> SleepAfter(outcomes) == 2_000
    ensures failures == 2 ==> SleepAfter(outcomes) == 4_000
    ensures failures == 3 ==> SleepAfter(outcomes) == 8_000
    ensures failures == 4 ==> SleepAfter(outcomes) == 16_000
    ensures failures >= 5 ==> SleepAfter(outcomes) == 30_000
  {
    TrailingErrorsIs(outcomes, failures);
    assert Pow2(2) == 4 && Pow2(3) == 8 && Pow2(4) == 16;
  }

  lemma {:induction false} TrailingErrorsIs(outcomes: seq<Result<nat>>, failures: nat)
    requires failures <= |outcomes|
    requires forall i :: |outcomes| - failures <= i < |outcomes| ==> outcomes[i].Err?
    requires failures < |outcomes| ==> outcomes[|outcomes| - failures - 1].Ok?
    ensures TrailingErrors(outcomes) == failures
  {
    if failures > 0 {
      TrailingErrorsIs(outcomes[..|outcomes| - 1], failures - 1);
    }
  }

  /** run_outbox_worker over a finite run of batch outcomes. */
  method RunWorker(outcomes: seq<Result<nat>>) returns (sleeps: seq<nat>)
    ensures |sleeps| == |outcomes|
    ensures forall i :: 0 <= i < |sleeps| ==> sleeps[i] == SleepAfter(outcomes[..i + 1])
  {
    sleeps := [];
    var consecutiveErrors := 0;
    var i := 0;
    while i < |outcomes|
      invariant 0 <= i <= |outcomes| && |sleeps| == i
      invariant consecutiveErrors == TrailingErrors(outcomes[..i])
      invariant forall j :: 0 <= j < i ==> sleeps[j] == SleepAfter(outcomes[..j + 1])
    {
      assert outcomes[..i + 1][..i] == outcomes[..i];
      match outcomes[i] {
        case Ok(n) =>
          consecutiveErrors := 0;
          sleeps := sleeps + [if n == 0 then 100 else 0];
        case Err(_) =>
          consecutiveErrors := consecutiveErrors + 1;
          var shift := if consecutiveErrors < 5 then consecutiveErrors else 5;
          var power := Pow2(shift);
          SmallPowers(shift);
          var backoff := if power < 30 then power else 30;
          sleeps := sleeps + [1000 * backoff];
      }
      i := i + 1;
    }
  }

  lemma SmallPowers(n: nat)
    ensures n <= 4 ==> Pow2(n) <= 16
    ensures Pow2(5) == 32
  {
    assert Pow2(3) == 8;
  }
}
