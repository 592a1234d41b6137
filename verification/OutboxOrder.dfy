/** One outbox worker on rows that become visible in creation order. */
module OutboxOrder {
  import opened Outbox

  /** The rows in the order of their first publication. */
  function Firsts(log: seq<nat>): seq<nat> {
    if |log| == 0 then []
    else
      var f := Firsts(log[..|log| - 1]);
      if log[|log| - 1] in f then f else f + [log[|log| - 1]]
  }

  /** k consecutive rows from m on. */
  function Span(m: nat, k: nat): (rows: seq<nat>)
    ensures |rows| == k && forall i :: 0 <= i < k ==> rows[i] == m + i
  {
    if k == 0 then [] else Span(m, k - 1) + [m + k - 1]
  }

  function FirstRows(m: nat): (rows: set<nat>)
    ensures forall r: nat :: r in rows <==> r < m
  {
    if m == 0 then {} else FirstRows(m - 1) + {m - 1}
  }

  predicate CreationOrder(s: State) {
    forall i, j :: 0 <= i < j < |s.created| ==> s.created[i] < s.created[j]
  }

  predicate OneWorker(ev: Event) {
    ev.Insert? || ev.worker == 0
  }

  /** m rows are marked and p have been published, each the oldest ones, first published in
      order; an open batch holds the next rows after the marked ones. */
  ghost predicate Prefixes(s: State, m: nat, p: nat) {
    && m <= p <= |s.created|
    && s.marked == FirstRows(m)
    && Firsts(s.log) == Span(0, p)
    && s.open.Keys <= {0}
    && (0 in s.open ==>
          && var b := s.open[0];
             && b.rows == Span(m, |b.rows|) && m + |b.rows| <= |s.created|
             && b.marked <= b.published <= |b.rows| && m + b.published <= p)
  }

  /** No batch is open and the marked rows are the m oldest ones. */
  ghost predicate Idle(s: State, m: nat) {
    CreationOrder(s) && s.open == map[] && s.marked == FirstRows(m) && m <= |s.created|
  }

  lemma IdleAvailable(s: State, m: nat, r: nat)
    requires Idle(s, m)
    ensures Available(s, r) <==> m <= r < |s.created|
  {
  }

  lemma SelectionAscends(s: State, m: nat, rows: seq<nat>)
    requires Idle(s, m) && Selection(s, rows)
    ensures Ascending(rows) && forall i :: 0 <= i < |rows| ==> m <= rows[i] < |s.created|
  {
    forall i | 0 <= i < |rows|
      ensures m <= rows[i] < |s.created|
    {
      IdleAvailable(s, m, rows[i]);
    }
    forall i, j | 0 <= i < j < |rows|
      ensures rows[i] < rows[j]
    {
      assert rows[i] != rows[j];
      assert s.created[rows[i]] <= s.created[rows[j]];
    }
  }

  /** The first row left out shows that the batch is full. */
  lemma BatchFull(s: State, m: nat, rows: seq<nat>)
    requires Idle(s, m) && Selection(s, rows)
    requires forall i :: 0 <= i < |rows| ==> rows[i] == m + i
    ensures m + |rows| < |s.created| ==> |rows| == BATCH_SIZE
  {
    var r := m + |rows|;
    if r < |s.created| {
      IdleAvailable(s, m, r);
      assert r !in rows;
    }
  }

  /** With no batch open, the query has one answer: the next ten rows, or what is left. */
  lemma SelectionIsNext(s: State, m: nat, rows: seq<nat>)
    requires Idle(s, m) && Selection(s, rows)
    ensures rows == Span(m, |rows|) && m + |rows| <= |s.created|
    ensures |rows| == if |s.created| - m < BATCH_SIZE then |s.created| - m else BATCH_SIZE
  {
    SelectionAscends(s, m, rows);
    NextRow(s, m, rows, |rows|);
    BatchFull(s, m, rows);
    IsSpan(m, rows);
    BatchFits(s, m, rows);
  }

  lemma IsSpan(m: nat, rows: seq<nat>)
    requires forall i :: 0 <= i < |rows| ==> rows[i] == m + i
    ensures rows == Span(m, |rows|)
  {
  }

  lemma BatchFits(s: State, m: nat, rows: seq<nat>)
    requires |rows| <= BATCH_SIZE && m <= |s.created|
    requires forall i :: 0 <= i < |rows| ==> rows[i] == m + i && m <= rows[i] < |s.created|
    requires m + |rows| < |s.created| ==> |rows| == BATCH_SIZE
    ensures m + |rows| <= |s.created|
    ensures |rows| == if |s.created| - m < BATCH_SIZE then |s.created| - m else BATCH_SIZE
  {
    assert |rows| > 0 ==> rows[|rows| - 1] == m + |rows| - 1;
  }

  predicate Ascending(rows: seq<nat>) {
    forall i, j :: 0 <= i < j < |rows| ==> rows[i] < rows[j]
  }

  /** If the i-th row were not the i-th one after m, the row it skips would have been
      taken before it. */
  lemma {:induction false} NextRow(s: State, m: nat, rows: seq<nat>, i: nat)
    requires Idle(s, m) && Selection(s, rows) && Ascending(rows) && i <= |rows|
    requires forall j :: 0 <= j < |rows| ==> m <= rows[j] < |s.created|
    ensures forall j :: 0 <= j < i ==> rows[j] == m + j
    decreases i
  {
    if i > 0 {
      NextRow(s, m, rows, i - 1);
      var x, r := rows[i - 1], m + (i - 1);
      assert i > 1 ==> rows[i - 2] == r - 1;
      assert x >= r;
      IdleAvailable(s, m, r);
      forall j | 0 <= j < |rows|
        ensures rows[j] < r || rows[j] >= x
      {
        assert j > i - 1 ==> rows[i - 1] < rows[j];
      }
    }
  }

  lemma FirstsPush(log: seq<nat>, x: nat)
    ensures Firsts(log + [x]) == if x in Firsts(log) then Firsts(log) else Firsts(log) + [x]
  {
    assert (log + [x])[..|log|] == log;
  }

  /** Publishing row x when the first p rows have been published and x is one of them or
      the next. */
  lemma FirstsGrow(log: seq<nat>, p: nat, x: nat)
    requires Firsts(log) == Span(0, p) && x <= p
    ensures Firsts(log + [x]) == Span(0, if x == p then p + 1 else p)
  {
    FirstsPush(log, x);
    var f := Span(0, p);
    assert x < p ==> f[x] == x;
  }

  lemma PublishKeepsPrefixes(s: State, m: nat, p: nat, delivered: bool, acknowledged: bool) returns (p': nat)
    requires Prefixes(s, m, p)
    ensures p <= p' && Prefixes(PublishStep(s, 0, delivered, acknowledged), m, p')
  {
    p' := p;
    if 0 in s.open {
      var b := s.open[0];
      if b.marked == b.published < |b.rows| && (delivered || acknowledged) {
        var x := b.rows[b.published];
        assert x == m + b.published;
        FirstsGrow(s.log, p, x);
        p' := if x == p then p + 1 else p;
      }
    }
  }

  lemma CommitKeepsPrefixes(s: State, m: nat, p: nat, outcome: CommitOutcome) returns (m': nat)
    requires Prefixes(s, m, p)
    ensures m <= m' && Prefixes(CommitStep(s, 0, outcome), m', p)
  {
    m' := m;
    if 0 in s.open && s.open[0].marked == |s.open[0].rows| && outcome != NotApplied {
      var rows := s.open[0].rows;
      m' := m + |rows|;
      var s' := CommitStep(s, 0, outcome);
      assert s'.marked == FirstRows(m') by {
        forall r: nat
          ensures r in s'.marked <==> r < m'
        {
          if m <= r < m' {
            assert rows[r - m] == r;
          }
        }
      }
    }
  }

  lemma StepKeepsPrefixes(s: State, m: nat, p: nat, ev: Event) returns (m': nat, p': nat)
    requires Prefixes(s, m, p) && OneWorker(ev) && CreationOrder(s)
    ensures m <= m' && p <= p' && Prefixes(Step(s, ev), m', p')
  {
    m', p' := m, p;
    match ev
    case Insert(t) =>
    case Select(w, rows) =>
      if SelectStep(s, w, rows) != s {
        assert Idle(s, m);
        SelectionIsNext(s, m, rows);
      }
    case Publish(w, delivered, acknowledged) =>
      p' := PublishKeepsPrefixes(s, m, p, delivered, acknowledged);
    case Mark(w, fails) =>
    case Commit(w, outcome) =>
      m' := CommitKeepsPrefixes(s, m, p, outcome);
    case Crash(w) =>
  }

  lemma StepKeepsCreated(s: State, ev: Event)
    ensures s.created <= Step(s, ev).created
  {
  }

  lemma {:induction false} RunKeepsPrefixes(evs: seq<Event>) returns (m: nat, p: nat)
    requires forall i :: 0 <= i < |evs| ==> OneWorker(evs[i])
    requires CreationOrder(Run(EMPTY, evs))
    ensures Prefixes(Run(EMPTY, evs), m, p)
    decreases |evs|
  {
    if |evs| == 0 {
      m, p := 0, 0;
    } else {
      var init, ev := evs[..|evs| - 1], evs[|evs| - 1];
      var s := Run(EMPTY, init);
      StepKeepsCreated(s, ev);
      assert CreationOrder(s) by {
        assert forall i :: 0 <= i < |s.created| ==> s.created[i] == Step(s, ev).created[i];
      }
      assert forall i :: 0 <= i < |init| ==> OneWorker(evs[i]);
      m, p := RunKeepsPrefixes(init);
      m, p := StepKeepsPrefixes(s, m, p, ev);
    }
  }

  /** One worker, rows visible in strict creation order: in every run, whatever fails in
      the middle of a batch, the marked rows are the oldest ones, the rows ever published
      are the oldest ones, and first publications happened in creation order. */
  lemma OneWorkerPublishesInOrder(evs: seq<Event>)
    requires forall i :: 0 <= i < |evs| ==> OneWorker(evs[i])
    requires CreationOrder(Run(EMPTY, evs))
    ensures var s := Run(EMPTY, evs);
      && (exists m :: 0 <= m <= |s.created| && s.marked == FirstRows(m))
      && (exists p :: 0 <= p <= |s.created| && Firsts(s.log) == Span(0, p))
      && (forall r :: r in s.marked ==> r in Firsts(s.log))
      && (forall r :: r in Firsts(s.log) <==> r in s.log)
  {
    var s := Run(EMPTY, evs);
    var m, p := RunKeepsPrefixes(evs);
    forall r | r in s.marked
      ensures r in Firsts(s.log)
    {
      assert Span(0, p)[r] == r;
    }
    FirstsMembers(s.log);
  }

  lemma {:induction false} FirstsMembers(log: seq<nat>)
    ensures forall r :: r in Firsts(log) <==> r in log
    decreases |log|
  {
    if |log| > 0 {
      FirstsMembers(log[..|log| - 1]);
      assert log == log[..|log| - 1] + [log[|log| - 1]];
    }
  }

  /** Without that order of visibility first publications need not follow creation: a row
      that becomes visible only after every earlier row was marked is published last,
      however old its creation time. */
  lemma LateRowIsPublishedLast(s: State, m: nat, t: int)
    requires Idle(s, m) && m == |s.created| && m > 0 && t < s.created[m - 1]
    ensures var s1 := Step(s, Insert(t));
      var s2 := Step(s1, Select(0, [m]));
      var s3 := Step(s2, Publish(0, true, true));
      s3.log == s.log + [m] && s3.created[m] < s3.created[m - 1]
  {
    var s1 := Step(s, Insert(t));
    forall r: nat
      ensures Available(s1, r) <==> r == m
    {
    }
    assert Selection(s1, [m]);
  }
}
