/** One outbox worker and the creation times of the rows in the order they became visible:
    exactly when publications keep the order of creation. */
module OutboxTimes {
  import opened Outbox
  import opened OutboxOrder

  predicate NonDecreasing(times: seq<int>) {
    forall i, j :: 0 <= i < j < |times| ==> times[i] <= times[j]
  }

  /** The rows exist and are in the order of their creation times. */
  predicate InTimeOrder(rows: seq<nat>, times: seq<int>) {
    && (forall i :: 0 <= i < |rows| ==> rows[i] < |times|)
    && (forall i, j :: 0 <= i < j < |rows| ==> times[rows[i]] <= times[rows[j]])
  }

  /** What was published exists and is no newer than any row that was not. */
  ghost predicate OldestFirst(s: State) {
    && (forall y :: y in s.log ==> y < |s.created|)
    && (forall y, x: nat :: y in s.log && x < |s.created| && x !in s.log ==> s.created[y] <= s.created[x])
  }

  /** A batch is sorted, its rows are no newer than the other unmarked rows, and what it has
      sent was published. */
  ghost predicate BatchSorted(s: State, b: Batch) {
    && InTimeOrder(b.rows, s.created) && b.marked <= b.published <= |b.rows|
    && (forall i: nat, x: nat :: i < |b.rows| && x < |s.created| && x !in s.marked && x !in b.rows ==>
          s.created[b.rows[i]] <= s.created[x])
    && (forall i :: 0 <= i < b.published ==> b.rows[i] in s.log)
  }

  ghost predicate Ordered(s: State) {
    && OldestFirst(s) && InTimeOrder(Firsts(s.log), s.created)
    && (forall r :: r in s.marked ==> r in s.log)
    && s.open.Keys <= {0}
    && (0 in s.open ==> BatchSorted(s, s.open[0]))
  }

  lemma InsertKeepsOrdered(s: State, t: int)
    requires Ordered(s) && forall i :: 0 <= i < |s.created| ==> s.created[i] <= t
    ensures Ordered(Step(s, Insert(t)))
  {
    var s' := Step(s, Insert(t));
    assert forall i :: 0 <= i < |s.created| ==> s'.created[i] == s.created[i];
    FirstsMembers(s.log);
  }

  lemma SelectKeepsOrdered(s: State, rows: seq<nat>)
    requires Ordered(s)
    ensures Ordered(SelectStep(s, 0, rows))
  {
    var s' := SelectStep(s, 0, rows);
    if s' != s {
      var b := s'.open[0];
      forall i: nat, x: nat | i < |rows| && x < |s.created| && x !in s.marked && x !in rows
        ensures s.created[rows[i]] <= s.created[x]
      {
        assert Available(s, x);
      }
      assert forall i :: 0 <= i < |rows| ==> Available(s, rows[i]);
    }
  }

  /** The next row of a batch is no newer than any other unpublished one. */
  lemma NextIsOldest(s: State, z: nat)
    requires Ordered(s) && 0 in s.open && s.open[0].published < |s.open[0].rows|
    requires z == s.open[0].rows[s.open[0].published]
    ensures z < |s.created|
    ensures forall x: nat :: x < |s.created| && x !in s.log && x != z ==> s.created[z] <= s.created[x]
  {
    var b := s.open[0];
    forall x: nat | x < |s.created| && x !in s.log && x != z
      ensures s.created[z] <= s.created[x]
    {
      if x in b.rows {
        var i :| 0 <= i < |b.rows| && b.rows[i] == x;
        assert i > b.published;
      }
    }
  }

  lemma SentInTimeOrder(s: State, z: nat)
    requires OldestFirst(s) && InTimeOrder(Firsts(s.log), s.created) && z < |s.created|
    ensures InTimeOrder(Firsts(s.log + [z]), s.created)
  {
    FirstsPush(s.log, z);
    FirstsMembers(s.log);
    var f := Firsts(s.log);
    forall i | 0 <= i < |f| && z !in f
      ensures s.created[f[i]] <= s.created[z]
    {
      assert f[i] in s.log;
    }
  }

  lemma SentOldestFirst(s: State, z: nat, s': State)
    requires OldestFirst(s) && z < |s.created| && s'.created == s.created && s'.log == s.log + [z]
    requires forall x: nat :: x < |s.created| && x !in s.log && x != z ==> s.created[z] <= s.created[x]
    ensures OldestFirst(s')
  {
    assert forall y :: y in s'.log <==> y in s.log || y == z;
  }

  lemma SendKeepsOrdered(s: State, z: nat, b: Batch)
    requires Ordered(s) && 0 in s.open && s.open[0].published < |s.open[0].rows|
    requires z == s.open[0].rows[s.open[0].published]
    requires b == s.open[0].(published := s.open[0].published + 1)
    ensures Ordered(s.(log := s.log + [z], open := s.open[0 := b]))
  {
    var s' := s.(log := s.log + [z], open := s.open[0 := b]);
    NextIsOldest(s, z);
    SentInTimeOrder(s, z);
    SentOldestFirst(s, z, s');
    BatchSends(s, s.open[0], z, s');
  }

  lemma BatchSends(s: State, b: Batch, z: nat, s': State)
    requires BatchSorted(s, b) && b.published < |b.rows| && z == b.rows[b.published]
    requires s'.created == s.created && s'.marked == s.marked && s'.log == s.log + [z]
    ensures BatchSorted(s', b.(published := b.published + 1))
  {
    assert forall y :: y in s.log ==> y in s'.log;
    assert z in s'.log;
  }

  lemma PublishKeepsOrdered(s: State, delivered: bool, acknowledged: bool)
    requires Ordered(s)
    ensures Ordered(PublishStep(s, 0, delivered, acknowledged))
  {
    if 0 in s.open {
      var b := s.open[0];
      if b.marked == b.published < |b.rows| && (delivered || acknowledged) {
        SendKeepsOrdered(s, b.rows[b.published], b.(published := b.published + 1));
      }
    }
  }

  lemma CommitKeepsOrdered(s: State, outcome: CommitOutcome)
    requires Ordered(s)
    ensures Ordered(CommitStep(s, 0, outcome))
  {
  }

  lemma StepKeepsOrdered(s: State, ev: Event)
    requires Ordered(s) && OneWorker(ev) && NonDecreasing(Step(s, ev).created)
    ensures Ordered(Step(s, ev))
  {
    match ev
    case Insert(t) =>
      assert Step(s, ev).created[|s.created|] == t;
      assert forall i :: 0 <= i < |s.created| ==> Step(s, ev).created[i] == s.created[i];
      InsertKeepsOrdered(s, t);
    case Select(_, rows) => SelectKeepsOrdered(s, rows);
    case Publish(_, delivered, acknowledged) => PublishKeepsOrdered(s, delivered, acknowledged);
    case Mark(_, _) =>
    case Commit(_, outcome) => CommitKeepsOrdered(s, outcome);
    case Crash(_) =>
  }

  lemma {:induction false} RunKeepsOrdered(evs: seq<Event>)
    requires (forall i :: 0 <= i < |evs| ==> OneWorker(evs[i])) && NonDecreasing(Run(EMPTY, evs).created)
    ensures Ordered(Run(EMPTY, evs))
    decreases |evs|
  {
    if |evs| > 0 {
      var before := Run(EMPTY, evs[..|evs| - 1]);
      StepKeepsCreated(before, evs[|evs| - 1]);
      assert NonDecreasing(before.created) by {
        assert forall i :: 0 <= i < |before.created| ==> before.created[i] == Run(EMPTY, evs).created[i];
      }
      RunKeepsOrdered(evs[..|evs| - 1]);
      StepKeepsOrdered(before, evs[|evs| - 1]);
    }
  }

  // ---- A worker that keeps up -----------------------------------------------

  /** Row n becomes visible and is published and marked at once. */
  function Prompt(n: nat, t: int): seq<Event> {
    [Insert(t), Select(0, [n]), Publish(0, true, true), Mark(0, false), Commit(0, Applied)]
  }

  function KeepingUp(times: seq<int>): seq<Event> {
    if |times| == 0 then [] else KeepingUp(times[..|times| - 1]) + Prompt(|times| - 1, times[|times| - 1])
  }

  /** The state of a worker that has kept up. */
  function UpToDate(times: seq<int>): State {
    State(times, FirstRows(|times|), map[], Span(0, |times|), [])
  }

  lemma PromptRow(times: seq<int>, t: int)
    ensures Run(UpToDate(times), Prompt(|times|, t)) == UpToDate(times + [t])
  {
    var n, s0 := |times|, UpToDate(times);
    var evs := Prompt(n, t);
    var s1 := Step(s0, Insert(t));
    assert forall r: nat :: Available(s1, r) <==> r == n;
    assert Selection(s1, [n]);
    var s2 := Step(s1, Select(0, [n]));
    assert s2 == s1.(open := map[0 := Batch([n], 0, 0)]);
    var s3 := Step(s2, Publish(0, true, true));
    assert s3 == s2.(log := Span(0, n) + [n], open := map[0 := Batch([n], 1, 0)]);
    var s4 := Step(s3, Mark(0, false));
    assert s4 == s3.(open := map[0 := Batch([n], 1, 1)]);
    var s5 := Step(s4, Commit(0, Applied));
    assert s5.open == map[] && s5.marked == FirstRows(n) + {n};
    FiveSteps(s0, evs);
  }

  lemma FiveSteps(s: State, evs: seq<Event>)
    requires |evs| == 5
    ensures Run(s, evs) == Step(Step(Step(Step(Step(s, evs[0]), evs[1]), evs[2]), evs[3]), evs[4])
  {
    var none: seq<Event> := [];
    RunPush(s, none, evs[0]);
    assert none + [evs[0]] == evs[..1];
    RunPush(s, evs[..1], evs[1]);
    assert evs[..1] + [evs[1]] == evs[..2];
    RunPush(s, evs[..2], evs[2]);
    assert evs[..2] + [evs[2]] == evs[..3];
    RunPush(s, evs[..3], evs[3]);
    assert evs[..3] + [evs[3]] == evs[..4];
    RunPush(s, evs[..4], evs[4]);
    assert evs[..4] + [evs[4]] == evs;
  }

  lemma {:induction false} KeepingUpPublishesAsVisible(times: seq<int>)
    ensures Run(EMPTY, KeepingUp(times)) == UpToDate(times)
    ensures forall i :: 0 <= i < |KeepingUp(times)| ==> OneWorker(KeepingUp(times)[i])
  {
    if |times| == 0 {
      assert times == [];
    } else {
      var init, t := times[..|times| - 1], times[|times| - 1];
      KeepingUpPublishesAsVisible(init);
      PromptRow(init, t);
      assert init + [t] == times;
      RunConcat(EMPTY, KeepingUp(init), Prompt(|times| - 1, t));
    }
  }

  lemma {:induction false} FirstsOfSpan(n: nat)
    ensures Firsts(Span(0, n)) == Span(0, n)
  {
    if n > 0 {
      FirstsOfSpan(n - 1);
      FirstsPush(Span(0, n - 1), n - 1);
    }
  }

  /** A run of one worker over rows with these creation times, listed as they became
      visible. */
  ghost predicate RunOver(evs: seq<Event>, times: seq<int>) {
    (forall i :: 0 <= i < |evs| ==> OneWorker(evs[i])) && Run(EMPTY, evs).created == times
  }

  /** With one worker, whatever fails in the middle of its batches: first publications
      follow creation in every run if and only if no row becomes visible after a row created
      later than it. Rows created at the same time may be published in either order. */
  lemma FirstsInOrderIff(times: seq<int>)
    ensures (forall evs :: RunOver(evs, times) ==> InTimeOrder(Firsts(Run(EMPTY, evs).log), times))
            <==> NonDecreasing(times)
  {
    if NonDecreasing(times) {
      forall evs | RunOver(evs, times)
        ensures InTimeOrder(Firsts(Run(EMPTY, evs).log), times)
      {
        RunKeepsOrdered(evs);
      }
    } else {
      var evs, n := KeepingUp(times), |times|;
      KeepingUpPublishesAsVisible(times);
      FirstsOfSpan(n);
      var i, j :| 0 <= i < j < n && times[i] > times[j];
      assert Span(0, n)[i] == i && Span(0, n)[j] == j;
      assert RunOver(evs, times) && !InTimeOrder(Firsts(Run(EMPTY, evs).log), times);
    }
  }
}
