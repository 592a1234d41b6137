/** Accounting of publications over every run of any number of outbox workers. */
module OutboxProofs {
  import opened Outbox

  /** How often a row was published. */
  function Times(log: seq<nat>, r: nat): nat {
    if |log| == 0 then 0 else Times(log[..|log| - 1], r) + (if log[|log| - 1] == r then 1 else 0)
  }

  /** How many aborted batches had published a row. */
  function AbortedWith(aborted: seq<Batch>, r: nat): nat {
    if |aborted| == 0 then 0
    else AbortedWith(aborted[..|aborted| - 1], r) + (if r in aborted[|aborted| - 1].Sent() then 1 else 0)
  }

  /** The open batches that have published a row. */
  function InFlight(s: State, r: nat): set<Worker> {
    set w | w in s.open && r in s.open[w].Sent()
  }

  ghost predicate BatchOk(s: State, b: Batch) {
    && b.marked <= b.published <= b.marked + 1 && b.published <= |b.rows|
    && Distinct(b.rows)
    && forall i :: 0 <= i < |b.rows| ==> Pending(s, b.rows[i])
  }

  ghost predicate Disjoint(s: State) {
    forall v, w, r :: v in s.open && w in s.open && v != w && r in s.open[v].rows ==> r !in s.open[w].rows
  }

  ghost predicate Balanced(s: State, r: nat) {
    Times(s.log, r) == AbortedWith(s.aborted, r) + |InFlight(s, r)| + (if r in s.marked then 1 else 0)
  }

  ghost predicate Inv(s: State) {
    && (forall w :: w in s.open ==> BatchOk(s, s.open[w]))
    && Disjoint(s)
    && (forall r :: r in s.marked ==> r < |s.created|)
    && (forall r: nat :: Balanced(s, r))
  }

  // ---- Preservation ---------------------------------------------------------

  lemma TimesPush(log: seq<nat>, x: nat, r: nat)
    ensures Times(log + [x], r) == Times(log, r) + (if x == r then 1 else 0)
  {
    assert (log + [x])[..|log|] == log;
  }

  lemma AbortedPush(aborted: seq<Batch>, b: Batch, r: nat)
    ensures AbortedWith(aborted + [b], r) == AbortedWith(aborted, r) + (if r in b.Sent() then 1 else 0)
  {
    assert (aborted + [b])[..|aborted|] == aborted;
  }

  lemma AbortKeepsInv(s: State, w: Worker)
    requires Inv(s) && w in s.open
    ensures Inv(Abort(s, w))
  {
    var s' := Abort(s, w);
    forall r: nat
      ensures Balanced(s', r)
    {
      assert Balanced(s, r);
      AbortedPush(s.aborted, s.open[w], r);
      assert InFlight(s', r) == InFlight(s, r) - {w};
    }
    forall v | v in s'.open
      ensures BatchOk(s', s'.open[v])
    {
      assert BatchOk(s, s.open[v]);
    }
  }

  lemma InsertKeepsInv(s: State, t: int)
    requires Inv(s)
    ensures Inv(Step(s, Insert(t)))
  {
    var s' := Step(s, Insert(t));
    forall r: nat
      ensures Balanced(s', r)
    {
      assert Balanced(s, r);
      assert InFlight(s', r) == InFlight(s, r);
    }
    forall v | v in s'.open
      ensures BatchOk(s', s'.open[v])
    {
      assert BatchOk(s, s.open[v]);
    }
  }

  lemma SelectKeepsInv(s: State, w: Worker, rows: seq<nat>)
    requires Inv(s)
    ensures Inv(SelectStep(s, w, rows))
  {
    var s' := SelectStep(s, w, rows);
    if s' != s {
      forall r: nat
        ensures Balanced(s', r)
      {
        assert Balanced(s, r);
        assert InFlight(s', r) == InFlight(s, r);
      }
      forall v | v in s'.open
        ensures BatchOk(s', s'.open[v])
      {
        if v == w {
          assert forall i :: 0 <= i < |rows| ==> Available(s, rows[i]);
        } else {
          assert BatchOk(s, s.open[v]);
        }
      }
      assert forall i :: 0 <= i < |rows| ==> !Locked(s, rows[i]) by {
        assert forall i :: 0 <= i < |rows| ==> Available(s, rows[i]);
      }
    }
  }

  /** Replacing one open batch changes the count of batches in flight by that batch. */
  lemma InFlightAfter(s: State, w: Worker, b: Batch, log: seq<nat>, r: nat)
    requires w in s.open
    ensures |InFlight(s.(open := s.open[w := b], log := log), r)| - |InFlight(s, r)|
         == (if r in b.Sent() then 1 else 0) - (if r in s.open[w].Sent() then 1 else 0)
  {
    var s' := s.(open := s.open[w := b], log := log);
    var others := InFlight(s, r) - {w};
    assert InFlight(s, r) == if r in s.open[w].Sent() then others + {w} else others;
    assert InFlight(s', r) == if r in b.Sent() then others + {w} else others;
  }

  /** Replacing one open batch by another stage of itself. */
  lemma AdvanceKeepsInv(s: State, w: Worker, b: Batch, log: seq<nat>)
    requires Inv(s) && w in s.open && BatchOk(s, b) && b.rows == s.open[w].rows
    requires forall r: nat ::
      Times(log, r) - Times(s.log, r) == (if r in b.Sent() then 1 else 0) - (if r in s.open[w].Sent() then 1 else 0)
    ensures Inv(s.(open := s.open[w := b], log := log))
  {
    var s' := s.(open := s.open[w := b], log := log);
    forall r: nat
      ensures Balanced(s', r)
    {
      assert Balanced(s, r);
      InFlightAfter(s, w, b, log, r);
    }
    forall v | v in s'.open
      ensures BatchOk(s', s'.open[v])
    {
      assert v != w ==> BatchOk(s, s.open[v]);
    }
    assert Disjoint(s') by {
      assert forall v :: v in s'.open ==> s'.open[v].rows == s.open[v].rows;
    }
  }

  lemma PublishKeepsInv(s: State, w: Worker, delivered: bool, acknowledged: bool)
    requires Inv(s)
    ensures Inv(PublishStep(s, w, delivered, acknowledged))
  {
    if w in s.open && s.open[w].marked == s.open[w].published < |s.open[w].rows| {
      var b := s.open[w];
      assert BatchOk(s, b);
      if delivered || acknowledged {
        var x := b.rows[b.published];
        var b' := b.(published := b.published + 1);
        forall r: nat
          ensures Times(s.log + [x], r) - Times(s.log, r)
               == (if r in b'.Sent() then 1 else 0) - (if r in b.Sent() then 1 else 0)
        {
          TimesPush(s.log, x, r);
          assert b'.Sent() == b.Sent() + [x];
          assert forall i :: 0 <= i < |b.Sent()| ==> b.Sent()[i] == b.rows[i] != x;
        }
        AdvanceKeepsInv(s, w, b', s.log + [x]);
        var sent := s.(log := s.log + [x], open := s.open[w := b']);
        if !acknowledged {
          AbortKeepsInv(sent, w);
        }
      } else {
        AbortKeepsInv(s, w);
      }
    }
  }

  /** Marking a whole published batch moves each of its rows from in flight to marked. */
  lemma CommitKeepsBalance(s: State, s': State, w: Worker, r: nat)
    requires Inv(s) && w in s.open && s.open[w].Sent() == s.open[w].rows
    requires s'.open == s.open - {w} && s'.log == s.log && s'.aborted == s.aborted
    requires r in s'.marked <==> r in s.marked || r in s.open[w].rows
    ensures Balanced(s', r)
  {
    assert Balanced(s, r);
    var b := s.open[w];
    assert InFlight(s', r) == InFlight(s, r) - {w};
    assert w in InFlight(s, r) <==> r in b.rows;
    if r in b.rows {
      assert BatchOk(s, b);
      var i :| 0 <= i < |b.rows| && b.rows[i] == r;
      assert Pending(s, b.rows[i]);
    }
  }

  /** The batches still open hold none of the rows that were marked. */
  lemma CommitKeepsBatch(s: State, s': State, w: Worker, v: Worker)
    requires Inv(s) && w in s.open && v in s.open && v != w && s'.created == s.created
    requires forall r :: r in s'.marked <==> r in s.marked || r in s.open[w].rows
    ensures BatchOk(s', s.open[v])
  {
    var b := s.open[v];
    assert BatchOk(s, b);
    forall i | 0 <= i < |b.rows|
      ensures Pending(s', b.rows[i])
    {
      assert Pending(s, b.rows[i]) && b.rows[i] in b.rows;
    }
  }

  lemma CommitKeepsInv(s: State, w: Worker, outcome: CommitOutcome)
    requires Inv(s)
    ensures Inv(CommitStep(s, w, outcome))
  {
    if w in s.open && s.open[w].marked == |s.open[w].rows| {
      if outcome == NotApplied {
        AbortKeepsInv(s, w);
      } else {
        var s' := CommitStep(s, w, outcome);
        assert BatchOk(s, s.open[w]);
        assert s.open[w].Sent() == s.open[w].rows;
        forall r: nat
          ensures Balanced(s', r)
        {
          CommitKeepsBalance(s, s', w, r);
        }
        forall v | v in s'.open
          ensures BatchOk(s', s'.open[v])
        {
          CommitKeepsBatch(s, s', w, v);
        }
        CommitKeepsMarks(s, w, s');
      }
    }
  }

  lemma CommitKeepsMarks(s: State, w: Worker, s': State)
    requires Inv(s) && w in s.open && s'.created == s.created
    requires forall r :: r in s'.marked <==> r in s.marked || r in s.open[w].rows
    ensures forall r :: r in s'.marked ==> r < |s'.created|
  {
    var b := s.open[w];
    assert BatchOk(s, b);
    forall r | r in b.rows
      ensures r < |s.created|
    {
      var i :| 0 <= i < |b.rows| && b.rows[i] == r;
      assert Pending(s, b.rows[i]);
    }
  }

  lemma StepKeepsInv(s: State, ev: Event)
    requires Inv(s)
    ensures Inv(Step(s, ev))
  {
    match ev
    case Insert(t) => InsertKeepsInv(s, t);
    case Select(w, rows) => SelectKeepsInv(s, w, rows);
    case Publish(w, delivered, acknowledged) => PublishKeepsInv(s, w, delivered, acknowledged);
    case Mark(w, fails) =>
      if w in s.open && s.open[w].published == s.open[w].marked + 1 {
        assert BatchOk(s, s.open[w]);
        if fails {
          AbortKeepsInv(s, w);
        } else {
          AdvanceKeepsInv(s, w, s.open[w].(marked := s.open[w].marked + 1), s.log);
        }
      }
    case Commit(w, outcome) => CommitKeepsInv(s, w, outcome);
    case Crash(w) =>
      if w in s.open {
        AbortKeepsInv(s, w);
      }
  }

  lemma {:induction false} RunKeepsInv(s: State, evs: seq<Event>)
    requires Inv(s)
    ensures Inv(Run(s, evs))
    decreases |evs|
  {
    if |evs| > 0 {
      RunKeepsInv(s, evs[..|evs| - 1]);
      StepKeepsInv(Run(s, evs[..|evs| - 1]), evs[|evs| - 1]);
    }
  }

  lemma EmptyKeepsInv()
    ensures Inv(EMPTY)
  {
    forall r: nat
      ensures Balanced(EMPTY, r)
    {
      assert InFlight(EMPTY, r) == {};
    }
  }

  // ---- Theorems over runs ---------------------------------------------------

  /** Accounting: in every run a row was published once for each aborted batch that
      published it, once more while an open batch has published it, and once more exactly
      when it is marked. So a marked row was published, and no row is in two open
      batches or both in one and marked. */
  lemma PublicationAccounting(evs: seq<Event>)
    ensures var s := Run(EMPTY, evs);
      && (forall r: nat :: Times(s.log, r)
            == AbortedWith(s.aborted, r) + |InFlight(s, r)| + (if r in s.marked then 1 else 0))
      && (forall r :: r in s.marked ==> Times(s.log, r) >= 1)
      && (forall v, w, r :: v in s.open && w in s.open && v != w && r in s.open[v].rows ==> r !in s.open[w].rows)
      && (forall w, r :: w in s.open && r in s.open[w].rows ==> r !in s.marked)
      && (forall r: nat :: |InFlight(s, r)| <= 1)
  {
    EmptyKeepsInv();
    RunKeepsInv(EMPTY, evs);
    var s := Run(EMPTY, evs);
    forall r: nat
      ensures Balanced(s, r) && (r in s.marked ==> Times(s.log, r) >= 1)
    {
      assert Balanced(s, r);
    }
    forall w, r | w in s.open && r in s.open[w].rows
      ensures r !in s.marked
    {
      assert BatchOk(s, s.open[w]);
    }
    forall r: nat
      ensures |InFlight(s, r)| <= 1
    {
      AtMostOne(s, r);
    }
  }

  lemma AtMostOne(s: State, r: nat)
    requires Inv(s)
    ensures |InFlight(s, r)| <= 1
  {
    var ws := InFlight(s, r);
    if ws != {} {
      var w :| w in ws;
      assert s.open[w].Sent() <= s.open[w].rows;
      assert r in s.open[w].rows;
      forall v | v in ws
        ensures v == w
      {
        assert s.open[v].Sent() <= s.open[v].rows;
        assert r in s.open[v].rows;
      }
      assert ws == {w};
    }
  }

  // ---- Failed batches -------------------------------------------------------

  /** The event ends a batch without its commit: the worker is lost, a send is not acknowledged,
      a mark fails, or the commit is not applied. */
  predicate EndsBatch(s: State, ev: Event) {
    match ev
    case Crash(w) => w in s.open
    case Publish(w, _, acknowledged) =>
      !acknowledged && w in s.open && s.open[w].marked == s.open[w].published < |s.open[w].rows|
    case Mark(w, fails) => fails && w in s.open && s.open[w].published == s.open[w].marked + 1
    case Commit(w, outcome) => outcome.NotApplied? && w in s.open && s.open[w].marked == |s.open[w].rows|
    case _ => false
  }

  /** Then nothing of it is marked, and all its rows, sent or not, are there for the next batch. */
  lemma FailureReleasesRows(s: State, ev: Event)
    requires Inv(s) && EndsBatch(s, ev)
    ensures var s' := Step(s, ev);
      && ev.worker !in s'.open && s'.marked == s.marked
      && forall r :: r in s.open[ev.worker].rows ==> Available(s', r)
  {
    var s', b := Step(s, ev), s.open[ev.worker];
    assert BatchOk(s, b);
    forall r | r in b.rows
      ensures Available(s', r)
    {
      var i :| 0 <= i < |b.rows| && b.rows[i] == r;
      assert Pending(s, b.rows[i]);
      forall w | w in s'.open
        ensures r !in s'.open[w].rows
      {
        assert w != ev.worker && s'.open[w] == s.open[w];
      }
    }
  }

  // ---- What the history says ------------------------------------------------

  /** Event k sent row r to the broker: it was the next one of an open batch that had marked all
      it had published, and it arrived, whether or not that was reported. */
  predicate SendsAt(evs: seq<Event>, k: nat, r: nat)
    requires k < |evs|
  {
    var s := Run(EMPTY, evs[..k]);
    match evs[k]
    case Publish(w, delivered, acknowledged) =>
      && (delivered || acknowledged) && w in s.open
      && s.open[w].marked == s.open[w].published < |s.open[w].rows|
      && s.open[w].rows[s.open[w].published] == r
    case _ => false
  }

  /** Event k marked row r: its batch had marked all rows in the transaction, and the commit took
      effect, whether or not that was reported. */
  predicate MarksAt(evs: seq<Event>, k: nat, r: nat)
    requires k < |evs|
  {
    var s := Run(EMPTY, evs[..k]);
    match evs[k]
    case Commit(w, outcome) =>
      outcome != NotApplied && w in s.open && s.open[w].marked == |s.open[w].rows| && r in s.open[w].rows
    case _ => false
  }

  /** How often the first n events sent a row. */
  function SentTimes(evs: seq<Event>, n: nat, r: nat): nat
    requires n <= |evs|
  {
    if n == 0 then 0 else SentTimes(evs, n - 1, r) + (if SendsAt(evs, n - 1, r) then 1 else 0)
  }

  /** In every run the publications of a row are its sends, and it is marked exactly if one of
      the commits marked it. */
  lemma {:induction false} HistoryTells(evs: seq<Event>, n: nat, r: nat)
    requires n <= |evs|
    ensures var s := Run(EMPTY, evs[..n]);
      && Times(s.log, r) == SentTimes(evs, n, r)
      && (r in s.marked <==> exists k: nat :: k < n && MarksAt(evs, k, r))
  {
    if n > 0 {
      HistoryTells(evs, n - 1, r);
      assert evs[..n][..n - 1] == evs[..n - 1];
      StepTells(evs, n - 1, r);
    }
  }

  lemma StepTells(evs: seq<Event>, k: nat, r: nat)
    requires k < |evs|
    ensures var s := Run(EMPTY, evs[..k]);
      var s' := Step(s, evs[k]);
      && Times(s'.log, r) == Times(s.log, r) + (if SendsAt(evs, k, r) then 1 else 0)
      && (r in s'.marked <==> r in s.marked || MarksAt(evs, k, r))
  {
    var s := Run(EMPTY, evs[..k]);
    if evs[k].Publish? && evs[k].worker in s.open {
      var b := s.open[evs[k].worker];
      if b.published < |b.rows| {
        TimesPush(s.log, b.rows[b.published], r);
      }
    }
  }

  /** Once marked, a row is never published again, whatever happens afterwards. */
  lemma MarkedRowIsFinal(evs: seq<Event>, more: seq<Event>, r: nat)
    requires r in Run(EMPTY, evs).marked
    ensures r in Run(EMPTY, evs + more).marked
    ensures Times(Run(EMPTY, evs + more).log, r) == Times(Run(EMPTY, evs).log, r)
  {
    EmptyKeepsInv();
    RunKeepsInv(EMPTY, evs);
    RunConcat(EMPTY, evs, more);
    MarkedStaysFinal(Run(EMPTY, evs), more, r);
  }

  lemma {:induction false} MarkedStaysFinal(s: State, more: seq<Event>, r: nat)
    requires Inv(s) && r in s.marked
    ensures r in Run(s, more).marked && Times(Run(s, more).log, r) == Times(s.log, r)
    decreases |more|
  {
    if |more| > 0 {
      MarkedStaysFinal(s, more[..|more| - 1], r);
      RunKeepsInv(s, more[..|more| - 1]);
      MarkedAfterStep(Run(s, more[..|more| - 1]), more[|more| - 1], r);
    }
  }

  lemma MarkedAfterStep(s: State, ev: Event, r: nat)
    requires Inv(s) && r in s.marked
    ensures r in Step(s, ev).marked && Times(Step(s, ev).log, r) == Times(s.log, r)
  {
    if Step(s, ev).log != s.log {
      var b := s.open[ev.worker];
      assert BatchOk(s, b);
      assert Pending(s, b.rows[b.published]);
      TimesPush(s.log, b.rows[b.published], r);
    }
  }
}
