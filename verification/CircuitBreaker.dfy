/** services/kova-gateway/src/middleware/circuit_breaker.rs: the breaker in front of the
    upstream services. Requests overlap, so a completion may arrive in any state. */
module CircuitBreaker {

  const FAILURE_THRESHOLD: nat := 5
  /** Thirty seconds, in nanoseconds. */
  const OPEN_DURATION: int := 30_000_000_000

  datatype State = Closed(consecutiveFailures: nat) | Open(openedAt: int) | HalfOpen

  /** What the breaker sees, each stamped with the clock when the lock was taken. */
  datatype Event = Attempt(at: int) | Success(at: int) | Failure(at: int)

  // ---- The state machine ----------------------------------------------------

  predicate Admits(s: State, now: int) {
    match s
    case Closed(_) => true
    case Open(openedAt) => now - openedAt >= OPEN_DURATION
    case HalfOpen => false
  }

  function Step(s: State, e: Event): State {
    match e
    case Attempt(now) => if s.Open? && Admits(s, now) then HalfOpen else s
    case Success(_) => Closed(0)
    case Failure(now) =>
      match s
      case Closed(k) => if k + 1 >= FAILURE_THRESHOLD then Open(now) else Closed(k + 1)
      case HalfOpen => Open(now)
      case Open(_) => s
  }

  /** The state after the first i events since the start. */
  function StateAt(evs: seq<Event>, i: nat): State
    requires i <= |evs|
  {
    if i == 0 then Closed(0) else Step(StateAt(evs, i - 1), evs[i - 1])
  }

  predicate AdmittedAt(evs: seq<Event>, i: nat)
    requires i < |evs|
  {
    evs[i].Attempt? && Admits(StateAt(evs, i), evs[i].at)
  }

  function Admissions(evs: seq<Event>, i: nat, j: nat): nat
    requires i <= j <= |evs|
  {
    if i == j then 0
    else Admissions(evs, i, j - 1) + (if AdmittedAt(evs, j - 1) then 1 else 0)
  }

  ghost predicate Timed(evs: seq<Event>) {
    forall i, j :: 0 <= i < j < |evs| ==> evs[i].at <= evs[j].at
  }

  /** Completions among the first i events. */
  function Completions(evs: seq<Event>, i: nat): nat
    requires i <= |evs|
  {
    if i == 0 then 0 else Completions(evs, i - 1) + (if evs[i - 1].Attempt? then 0 else 1)
  }

  /** Only a request that was let through completes. */
  ghost predicate Possible(evs: seq<Event>) {
    forall i :: 0 <= i <= |evs| ==> Completions(evs, i) <= Admissions(evs, 0, i)
  }

  ghost predicate NoSuccess(evs: seq<Event>, i: nat, j: nat)
    requires i <= j <= |evs|
  {
    forall k :: i <= k < j ==> !evs[k].Success?
  }

  // ---- The state is a function of the completions ---------------------------

  /** Failures completed since the last success, or since the start. */
  function FailuresSince(evs: seq<Event>, i: nat): nat
    requires i <= |evs|
  {
    if i == 0 then 0
    else
      match evs[i - 1]
      case Attempt(_) => FailuresSince(evs, i - 1)
      case Success(_) => 0
      case Failure(_) => FailuresSince(evs, i - 1) + 1
  }

  /** Whatever was admitted or rejected and whenever it happened, the breaker is closed
      exactly while fewer than five failures completed since the last success, and then
      holds their number. */
  lemma {:induction false} ClosedCountsFailures(evs: seq<Event>, i: nat)
    requires i <= |evs|
    ensures StateAt(evs, i).Closed? <==> FailuresSince(evs, i) < FAILURE_THRESHOLD
    ensures StateAt(evs, i).Closed? ==> StateAt(evs, i).consecutiveFailures == FailuresSince(evs, i)
  {
    if i > 0 {
      ClosedCountsFailures(evs, i - 1);
    }
  }

  // ---- Exactly which requests get through -----------------------------------

  /** Event i is a request that gets through: fewer than five failures completed since the last
      success, or the breaker's last opening is thirty seconds ago or more. */
  ghost predicate LetThrough(evs: seq<Event>, i: nat)
    requires i < |evs|
    decreases i, 1
  {
    evs[i].Attempt?
    && (|| FailuresSince(evs, i) < 5
        || exists k: nat :: k < i && LastOpening(evs, k, i) && evs[i].at - evs[k].at >= 30_000_000_000)
  }

  /** Event k opened the breaker, and up to event i nothing ended that: no success, and no
      request let through as a probe. */
  ghost predicate LastOpening(evs: seq<Event>, k: nat, i: nat)
    requires k < i <= |evs|
    decreases i, 0
  {
    Opens(evs, k) && forall m: nat :: k < m < i ==> !evs[m].Success? && !LetThrough(evs, m)
  }

  /** The fifth failure since the last success opens the breaker, and so does one that completes
      while a probe is out. */
  ghost predicate Opens(evs: seq<Event>, k: nat)
    requires k < |evs|
    decreases k, 1
  {
    evs[k].Failure? && (FailuresSince(evs, k) == 4 || (FailuresSince(evs, k) > 4 && ProbeOut(evs, k)))
  }

  /** After five failures or more a request was let through, and nothing completed since. */
  ghost predicate ProbeOut(evs: seq<Event>, i: nat)
    requires i <= |evs|
    decreases i, 0
  {
    exists p: nat :: p < i && LetThrough(evs, p) && FailuresSince(evs, p) >= 5
      && forall m :: p < m < i ==> evs[m].Attempt?
  }

  /** What the breaker's state says about its history. */
  ghost predicate StateTells(evs: seq<Event>, i: nat)
    requires i <= |evs|
  {
    && (forall k: nat :: k < i && LastOpening(evs, k, i) ==> StateAt(evs, i) == Open(evs[k].at))
    && (StateAt(evs, i).Open? ==> exists k: nat :: k < i && LastOpening(evs, k, i))
    && (StateAt(evs, i).HalfOpen? <==> ProbeOut(evs, i))
  }

  lemma {:induction false} StateTellsHistory(evs: seq<Event>, i: nat)
    requires i <= |evs|
    ensures StateTells(evs, i)
  {
    if i > 0 {
      StateTellsHistory(evs, i - 1);
      AdmittedIfTold(evs, i - 1);
      OpenAfter(evs, i - 1, i);
      HalfOpenAfter(evs, i - 1);
    }
  }

  lemma AdmittedIfTold(evs: seq<Event>, i: nat)
    requires i < |evs| && StateTells(evs, i)
    ensures AdmittedAt(evs, i) <==> LetThrough(evs, i)
  {
    ClosedCountsFailures(evs, i);
  }

  lemma OpeningGoesOn(evs: seq<Event>, k: nat, i: nat)
    requires k < i < |evs|
    ensures LastOpening(evs, k, i + 1)
            <==> LastOpening(evs, k, i) && !evs[i].Success? && !LetThrough(evs, i)
  {
  }

  lemma OpenNow(evs: seq<Event>, k: nat, i: nat)
    requires k < i < |evs| && StateTells(evs, i) && (AdmittedAt(evs, i) <==> LetThrough(evs, i))
    requires LastOpening(evs, k, i + 1)
    ensures StateAt(evs, i + 1) == Open(evs[k].at)
  {
    OpeningGoesOn(evs, k, i);
  }

  lemma OpensNow(evs: seq<Event>, i: nat)
    requires i < |evs| && StateTells(evs, i)
    ensures LastOpening(evs, i, i + 1) ==> StateAt(evs, i + 1) == Open(evs[i].at)
    ensures StateAt(evs, i + 1).Open? && !StateAt(evs, i).Open? ==> LastOpening(evs, i, i + 1)
  {
    ClosedCountsFailures(evs, i);
    assert LastOpening(evs, i, i + 1) <==> Opens(evs, i);
    assert ProbeOut(evs, i) <==> StateAt(evs, i).HalfOpen?;
    assert Opens(evs, i)
      <==> evs[i].Failure? && (FailuresSince(evs, i) == 4 || (FailuresSince(evs, i) > 4 && ProbeOut(evs, i)));
  }

  lemma OpenAfter(evs: seq<Event>, i: nat, next: nat)
    requires i < |evs| && StateTells(evs, i) && (AdmittedAt(evs, i) <==> LetThrough(evs, i)) && next == i + 1
    ensures forall k: nat :: k < next && LastOpening(evs, k, next) ==> StateAt(evs, next) == Open(evs[k].at)
    ensures StateAt(evs, next).Open? ==> exists k: nat :: k < next && LastOpening(evs, k, next)
  {
    OpensNow(evs, i);
    forall k: nat | k < next && LastOpening(evs, k, next)
      ensures StateAt(evs, next) == Open(evs[k].at)
    {
      if k < i {
        OpenNow(evs, k, i);
      }
    }
    if StateAt(evs, next).Open? && StateAt(evs, i).Open? {
      var k: nat :| k < i && LastOpening(evs, k, i);
      OpeningGoesOn(evs, k, i);
    }
  }

  lemma ProbeGoesOn(evs: seq<Event>, i: nat)
    requires i < |evs|
    ensures ProbeOut(evs, i + 1)
            <==> (LetThrough(evs, i) && FailuresSince(evs, i) >= 5) || (ProbeOut(evs, i) && evs[i].Attempt?)
  {
    if ProbeOut(evs, i) && evs[i].Attempt? {
      var p: nat :| p < i && LetThrough(evs, p) && FailuresSince(evs, p) >= 5
        && forall m :: p < m < i ==> evs[m].Attempt?;
      assert forall m :: p < m < i + 1 ==> evs[m].Attempt?;
    }
  }

  lemma HalfOpenAfter(evs: seq<Event>, i: nat)
    requires i < |evs| && StateTells(evs, i) && (AdmittedAt(evs, i) <==> LetThrough(evs, i))
    ensures StateAt(evs, i + 1).HalfOpen? <==> ProbeOut(evs, i + 1)
  {
    ClosedCountsFailures(evs, i);
    ProbeGoesOn(evs, i);
  }

  /** In every interleaving the breaker admits exactly those requests. */
  lemma AdmittedIff(evs: seq<Event>, i: nat)
    requires i < |evs|
    ensures AdmittedAt(evs, i) <==> LetThrough(evs, i)
  {
    StateTellsHistory(evs, i);
    AdmittedIfTold(evs, i);
  }

  lemma {:induction false} SameFailures(evs: seq<Event>, evs': seq<Event>, i: nat)
    requires i <= |evs| && evs <= evs'
    ensures FailuresSince(evs', i) == FailuresSince(evs, i)
  {
    if i > 0 {
      SameFailures(evs, evs', i - 1);
    }
  }

  // ---- At most one probe per thirty seconds ---------------------------------

  /** The breaker was opened by an earlier failure. */
  lemma {:induction false} OpenedBefore(evs: seq<Event>, i: nat)
    requires i <= |evs| && StateAt(evs, i).Open?
    ensures exists k :: 0 <= k < i && evs[k].Failure? && evs[k].at == StateAt(evs, i).openedAt
  {
    if StateAt(evs, i) == StateAt(evs, i - 1) {
      OpenedBefore(evs, i - 1);
    } else {
      assert evs[i - 1].Failure? && evs[i - 1].at == StateAt(evs, i).openedAt;
    }
  }

  /** The clock at the last event of a stretch that starts in an opening. */
  function Latest(evs: seq<Event>, i: nat, j: nat): int
    requires i <= j <= |evs| && StateAt(evs, i).Open?
  {
    if i == j then StateAt(evs, i).openedAt else evs[j - 1].at
  }

  /** The clock has moved by thirty seconds for every admission since an opening: up to
      the current opening, or up to the last event while half open. */
  lemma {:induction false} ProbeClock(evs: seq<Event>, i: nat, j: nat)
    requires i <= j <= |evs| && Timed(evs) && NoSuccess(evs, i, j) && StateAt(evs, i).Open?
    ensures !StateAt(evs, j).Closed?
    ensures var reached := if StateAt(evs, j).Open? then StateAt(evs, j).openedAt else Latest(evs, i, j);
      reached <= Latest(evs, i, j) && StateAt(evs, i).openedAt + Admissions(evs, i, j) * OPEN_DURATION <= reached
    decreases j
  {
    if i < j {
      ProbeClock(evs, i, j - 1);
      OpenedBefore(evs, i);
      assert Latest(evs, i, j - 1) <= evs[j - 1].at;
    }
  }

  /** In any interleaving, late completions of older requests included: from an opening on
      and until a success completes, at most one request per full thirty seconds gets
      through. */
  lemma ProbeBound(evs: seq<Event>, i: nat, j: nat, until: int)
    requires i <= j <= |evs| && Timed(evs) && NoSuccess(evs, i, j) && StateAt(evs, i).Open?
    requires StateAt(evs, i).openedAt <= until && (j > i ==> evs[j - 1].at <= until)
    ensures Admissions(evs, i, j) <= (until - StateAt(evs, i).openedAt) / OPEN_DURATION
  {
    ProbeClock(evs, i, j);
  }

  /** Two admissions with no success completing between them, the first of them not in the
      closed state, are thirty seconds apart. */
  lemma ProbesSpaced(evs: seq<Event>, p: nat, q: nat)
    requires p < q < |evs| && Timed(evs) && NoSuccess(evs, p, q)
    requires AdmittedAt(evs, p) && !StateAt(evs, p).Closed? && AdmittedAt(evs, q)
    ensures evs[q].at - evs[p].at >= OPEN_DURATION
  {
    ReopenedAfter(evs, p, q);
  }

  lemma {:induction false} ReopenedAfter(evs: seq<Event>, p: nat, q: nat)
    requires p < q < |evs| && Timed(evs) && NoSuccess(evs, p, q)
    requires AdmittedAt(evs, p) && !StateAt(evs, p).Closed?
    ensures !StateAt(evs, q).Closed? && (StateAt(evs, q).Open? ==> evs[p].at <= StateAt(evs, q).openedAt)
    decreases q
  {
    if p + 1 < q {
      ReopenedAfter(evs, p, q - 1);
    }
  }

  /** k requests let through at once, of which the first five fail. */
  function Opening(from: int, k: nat): (evs: seq<Event>)
    ensures |evs| == k + FAILURE_THRESHOLD
  {
    seq(k, _ => Attempt(from)) + seq(FAILURE_THRESHOLD, _ => Failure(from))
  }

  lemma OpeningOpens(from: int, k: nat)
    requires k >= FAILURE_THRESHOLD
    ensures var evs := Opening(from, k);
      && Possible(evs) && StateAt(evs, |evs|) == Open(from)
      && Admissions(evs, 0, |evs|) == k && Completions(evs, |evs|) == 5
  {
    var evs := Opening(from, k);
    var i := 0;
    while i < k
      invariant i <= k && StateAt(evs, i) == Closed(0) && Admissions(evs, 0, i) == i && Completions(evs, i) == 0
      invariant forall m :: 0 <= m <= i ==> Completions(evs, m) <= Admissions(evs, 0, m)
    {
      assert evs[i] == Attempt(from);
      i := i + 1;
    }
    while i < k + FAILURE_THRESHOLD
      invariant k <= i <= k + FAILURE_THRESHOLD && Admissions(evs, 0, i) == k && Completions(evs, i) == i - k
      invariant StateAt(evs, i) == if i - k < FAILURE_THRESHOLD then Closed(i - k) else Open(from)
      invariant forall m :: 0 <= m <= i ==> Completions(evs, m) <= Admissions(evs, 0, m)
    {
      assert evs[i] == Failure(from);
      i := i + 1;
    }
  }

  const OPENED: nat := 2 * FAILURE_THRESHOLD

  /** The bound is met: n probes that all fail at once follow each other every thirty
      seconds. */
  function Probing(from: int, n: nat): (evs: seq<Event>)
    ensures |evs| == OPENED + 2 * n
  {
    if n == 0 then Opening(from, FAILURE_THRESHOLD)
    else
      var now := from + n * OPEN_DURATION;
      Probing(from, n - 1) + [Attempt(now), Failure(now)]
  }

  lemma {:induction false} ProbeBoundIsMet(from: int, n: nat)
    ensures var evs := Probing(from, n);
      && Possible(evs) && Timed(evs) && NoSuccess(evs, 0, |evs|)
      && (forall k :: 0 <= k < |evs| ==> evs[k].at <= from + n * OPEN_DURATION)
      && StateAt(evs, OPENED) == Open(from) && StateAt(evs, |evs|) == Open(from + n * OPEN_DURATION)
      && Admissions(evs, OPENED, |evs|) == n
  {
    ProbingTimes(from, n);
    if n == 0 {
      OpeningOpens(from, FAILURE_THRESHOLD);
    } else {
      ProbeBoundIsMet(from, n - 1);
      OneMoreProbe(Probing(from, n - 1), Probing(from, n), from + n * OPEN_DURATION);
    }
  }

  lemma {:induction false} ProbingTimes(from: int, n: nat)
    ensures var evs := Probing(from, n);
      && Timed(evs) && NoSuccess(evs, 0, |evs|)
      && (forall k :: 0 <= k < |evs| ==> evs[k].at <= from + n * OPEN_DURATION)
  {
    if n > 0 {
      ProbingTimes(from, n - 1);
    }
  }

  lemma OneMoreProbe(evs: seq<Event>, evs': seq<Event>, now: int)
    requires OPENED <= |evs| && evs' == evs + [Attempt(now), Failure(now)]
    requires StateAt(evs, |evs|) == Open(now - OPEN_DURATION) && Possible(evs)
    ensures StateAt(evs', OPENED) == StateAt(evs, OPENED) && StateAt(evs', |evs'|) == Open(now)
    ensures Admissions(evs', OPENED, |evs'|) == Admissions(evs, OPENED, |evs|) + 1
    ensures Possible(evs')
  {
    SamePrefix(evs, evs', OPENED);
    FailedProbe(evs, evs', now);
    SameAdmissions(evs, evs', OPENED, |evs|);
    AdmissionsSplit(evs', OPENED, |evs'|);
    AdmissionsSplit(evs', OPENED, |evs|);
    SamePossible(evs, evs');
  }

  lemma FailedProbe(evs: seq<Event>, evs': seq<Event>, now: int)
    requires evs' == evs + [Attempt(now), Failure(now)] && StateAt(evs, |evs|) == Open(now - OPEN_DURATION)
    requires Possible(evs)
    ensures var n := |evs|;
      && StateAt(evs', n + 2) == Open(now) && Admissions(evs', 0, n + 2) == Admissions(evs', 0, n) + 1
      && Completions(evs', n + 1) <= Admissions(evs', 0, n + 1)
      && Completions(evs', n + 2) <= Admissions(evs', 0, n + 2)
  {
    var n := |evs|;
    SamePrefix(evs, evs', n);
    SameAdmissions(evs, evs', 0, n);
    SameCompletions(evs, evs', n);
    assert Completions(evs, n) <= Admissions(evs, 0, n);
    assert evs'[n] == Attempt(now) && evs'[n + 1] == Failure(now);
    assert StateAt(evs', n + 1) == HalfOpen && AdmittedAt(evs', n) && !AdmittedAt(evs', n + 1);
    assert Admissions(evs', 0, n + 1) == Admissions(evs', 0, n) + 1;
    assert Completions(evs', n + 1) == Completions(evs', n);
  }

  /** What is possible stays possible under what comes after. */
  lemma SamePossible(evs: seq<Event>, evs': seq<Event>)
    requires Possible(evs) && evs <= evs'
    ensures forall i :: 0 <= i <= |evs| ==> Completions(evs', i) <= Admissions(evs', 0, i)
  {
    forall i | 0 <= i <= |evs|
      ensures Completions(evs', i) <= Admissions(evs', 0, i)
    {
      SameAdmissions(evs, evs', 0, i);
      SameCompletions(evs, evs', i);
      assert Completions(evs, i) <= Admissions(evs, 0, i);
    }
  }

  lemma {:induction false} SameCompletions(evs: seq<Event>, evs': seq<Event>, i: nat)
    requires i <= |evs| && evs <= evs'
    ensures Completions(evs', i) == Completions(evs, i)
  {
    if i > 0 {
      SameCompletions(evs, evs', i - 1);
    }
  }

  lemma {:induction false} SamePrefix(evs: seq<Event>, evs': seq<Event>, i: nat)
    requires i <= |evs| && evs <= evs'
    ensures StateAt(evs', i) == StateAt(evs, i)
  {
    if i > 0 {
      SamePrefix(evs, evs', i - 1);
    }
  }

  lemma {:induction false} SameAdmissions(evs: seq<Event>, evs': seq<Event>, i: nat, j: nat)
    requires i <= j <= |evs| && evs <= evs'
    ensures Admissions(evs', i, j) == Admissions(evs, i, j)
    decreases j
  {
    if i < j {
      SameAdmissions(evs, evs', i, j - 1);
      SamePrefix(evs, evs', j - 1);
    }
  }

  // ---- Half-open episodes ---------------------------------------------------

  /** While the breaker is half open, exactly one request has been let through since it
      was last open, the one that made it half open; everything after that was a rejected
      request. */
  lemma {:induction false} OneProbePerEpisode(evs: seq<Event>, j: nat)
    requires j <= |evs| && StateAt(evs, j).HalfOpen?
    ensures exists i: nat :: Episode(evs, i, j) && Admissions(evs, i, j) == 1
  {
    if StateAt(evs, j - 1).HalfOpen? {
      OneProbePerEpisode(evs, j - 1);
      var i: nat :| Episode(evs, i, j - 1) && Admissions(evs, i, j - 1) == 1;
      assert Episode(evs, i, j) && Admissions(evs, i, j) == 1;
    } else {
      assert Admissions(evs, j - 1, j - 1) == 0;
      assert Episode(evs, j - 1, j) && Admissions(evs, j - 1, j) == 1;
    }
  }

  ghost predicate Episode(evs: seq<Event>, i: nat, j: nat) {
    && i < j <= |evs|
    && StateAt(evs, i).Open? && AdmittedAt(evs, i)
    && forall k :: i < k < j ==> StateAt(evs, k).HalfOpen? && evs[k].Attempt? && !AdmittedAt(evs, k)
  }

  /** And it lasts until a completion reaches the breaker: a probe that ends without one
      (its future dropped, or the inner service failing outright) leaves every later
      request rejected, however much time passes. */
  lemma {:induction false} HalfOpenUntilCompletion(evs: seq<Event>, i: nat, j: nat)
    requires i <= j <= |evs| && StateAt(evs, i).HalfOpen?
    requires forall k :: i <= k < j ==> evs[k].Attempt?
    ensures StateAt(evs, j).HalfOpen? && Admissions(evs, i, j) == 0
    decreases j
  {
    if i < j {
      HalfOpenUntilCompletion(evs, i, j - 1);
    }
  }

  // ---- Exactly when the bound holds -----------------------------------------

  /** evs' is evs with more attempts somewhere in it. */
  ghost predicate MoreAttempts(evs: seq<Event>, evs': seq<Event>)
    decreases |evs'|
  {
    if |evs'| == 0 then |evs| == 0
    else
      var last := evs'[|evs'| - 1];
      || (|evs| > 0 && evs[|evs| - 1] == last && MoreAttempts(evs[..|evs| - 1], evs'[..|evs'| - 1]))
      || (last.Attempt? && MoreAttempts(evs, evs'[..|evs'| - 1]))
  }

  /** Every success is still there, and no other. */
  lemma {:induction false} SuccessesKept(evs: seq<Event>, evs': seq<Event>)
    requires MoreAttempts(evs, evs') && NoSuccess(evs, 0, |evs|)
    ensures NoSuccess(evs', 0, |evs'|)
    decreases |evs'|
  {
    if |evs'| > 0 {
      var init, last := evs'[..|evs'| - 1], evs'[|evs'| - 1];
      if last.Attempt? && MoreAttempts(evs, init) {
        SuccessesKept(evs, init);
      } else {
        SuccessesKept(evs[..|evs| - 1], init);
      }
    }
  }

  /** A history that differs from evs only by more attempts after the first i events. */
  ghost predicate Busier(evs: seq<Event>, evs': seq<Event>, i: nat, until: int)
    requires i <= |evs|
  {
    && i <= |evs'| && evs'[..i] == evs[..i] && MoreAttempts(evs[i..], evs'[i..])
    && Possible(evs') && Timed(evs') && forall k :: 0 <= k < |evs'| ==> evs'[k].at <= until
  }

  /** n more attempts after position p, at the time of the event before it. */
  function Crowded(evs: seq<Event>, p: nat, n: nat): (evs': seq<Event>)
    requires 0 < p <= |evs|
    ensures |evs'| == |evs| + n
  {
    evs[..p] + seq(n, _ => Attempt(evs[p - 1].at)) + evs[p..]
  }

  lemma SameLast(evs: seq<Event>, evs': seq<Event>, e: Event)
    requires MoreAttempts(evs, evs')
    ensures MoreAttempts(evs + [e], evs' + [e])
  {
    assert (evs + [e])[..|evs|] == evs && (evs' + [e])[..|evs'|] == evs';
  }

  lemma AttemptLast(evs: seq<Event>, evs': seq<Event>, at: int)
    requires MoreAttempts(evs, evs')
    ensures MoreAttempts(evs, evs' + [Attempt(at)])
  {
    assert (evs' + [Attempt(at)])[..|evs'|] == evs';
  }

  lemma {:induction false} AttemptsAdded(a: seq<Event>, b: seq<Event>, n: nat, at: int)
    ensures MoreAttempts(a + b, a + seq(n, _ => Attempt(at)) + b)
    decreases |b|, n, |a|
  {
    var more := seq(n, _ => Attempt(at));
    if |b| > 0 {
      var init, last := b[..|b| - 1], b[|b| - 1];
      AttemptsAdded(a, init, n, at);
      SameLast(a + init, a + more + init, last);
      assert a + b == a + init + [last] && a + more + b == a + more + init + [last];
    } else if n > 0 {
      var fewer := seq(n - 1, _ => Attempt(at));
      AttemptsAdded(a, b, n - 1, at);
      AttemptLast(a + b, a + fewer + b, at);
      assert a + more + b == a + fewer + b + [Attempt(at)];
    } else if |a| > 0 {
      var init, last := a[..|a| - 1], a[|a| - 1];
      AttemptsAdded(init, b, n, at);
      SameLast(init + b, init + more + b, last);
      assert a + b == init + b + [last] && a + more + b == init + more + b + [last];
    }
  }

  /** Attempts right after a success are all let through and change nothing else. */
  lemma {:induction false} CrowdedRuns(evs: seq<Event>, p: nat, n: nat, k: nat)
    requires 0 < p <= |evs| && p <= k <= |evs| + n && evs[p - 1].Success?
    ensures var evs' := Crowded(evs, p, n);
      if k <= p + n then
        && StateAt(evs', k) == Closed(0) && Completions(evs', k) == Completions(evs, p)
        && Admissions(evs', 0, k) == Admissions(evs, 0, p) + (k - p)
      else
        && StateAt(evs', k) == StateAt(evs, k - n) && Completions(evs', k) == Completions(evs, k - n)
        && Admissions(evs', 0, k) == Admissions(evs, 0, k - n) + n
    decreases k
  {
    var evs' := Crowded(evs, p, n);
    if k == p {
      BeforeCrowd(evs, p, n, p);
    } else {
      CrowdedRuns(evs, p, n, k - 1);
      if k <= p + n {
        assert evs'[k - 1] == Attempt(evs[p - 1].at);
      } else {
        assert evs'[k - 1] == evs[k - n - 1];
      }
    }
  }

  /** Nothing changes before them. */
  lemma BeforeCrowd(evs: seq<Event>, p: nat, n: nat, k: nat)
    requires 0 < p <= |evs| && k <= p
    ensures var evs' := Crowded(evs, p, n);
      && evs'[..p] == evs[..p] && StateAt(evs', k) == StateAt(evs, k)
      && Completions(evs', k) == Completions(evs, k) && Admissions(evs', 0, k) == Admissions(evs, 0, k)
  {
    var evs' := Crowded(evs, p, n);
    var head := evs[..p];
    assert head <= evs && head <= evs';
    SamePrefix(head, evs, k);
    SamePrefix(head, evs', k);
    SameCompletions(head, evs, k);
    SameCompletions(head, evs', k);
    SameAdmissions(head, evs, 0, k);
    SameAdmissions(head, evs', 0, k);
  }

  lemma CrowdedIsBusier(evs: seq<Event>, i: nat, p: nat, n: nat, until: int)
    requires i < p <= |evs| && evs[p - 1].Success? && Possible(evs) && Timed(evs)
    requires forall k :: 0 <= k < |evs| ==> evs[k].at <= until
    ensures Busier(evs, Crowded(evs, p, n), i, until)
  {
    var evs' := Crowded(evs, p, n);
    CrowdedIsMore(evs, i, p, n);
    forall k | 0 <= k <= |evs'|
      ensures Completions(evs', k) <= Admissions(evs', 0, k)
    {
      CrowdedPossible(evs, p, n, k);
    }
  }

  lemma CrowdedIsMore(evs: seq<Event>, i: nat, p: nat, n: nat)
    requires i < p <= |evs|
    ensures var evs' := Crowded(evs, p, n);
      evs'[..i] == evs[..i] && MoreAttempts(evs[i..], evs'[i..])
  {
    var evs' := Crowded(evs, p, n);
    assert evs'[..i] == evs[..i];
    AttemptsAdded(evs[i..p], evs[p..], n, evs[p - 1].at);
    assert evs[i..] == evs[i..p] + evs[p..];
    assert evs'[i..] == evs[i..p] + seq(n, _ => Attempt(evs[p - 1].at)) + evs[p..];
  }

  lemma CrowdedPossible(evs: seq<Event>, p: nat, n: nat, k: nat)
    requires 0 < p <= |evs| && k <= |evs| + n && evs[p - 1].Success? && Possible(evs)
    ensures Completions(Crowded(evs, p, n), k) <= Admissions(Crowded(evs, p, n), 0, k)
  {
    if k < p {
      BeforeCrowd(evs, p, n, k);
      assert Completions(evs, k) <= Admissions(evs, 0, k);
    } else {
      CrowdedRuns(evs, p, n, k);
      var j := if k <= p + n then p else k - n;
      assert Completions(evs, j) <= Admissions(evs, 0, j);
    }
  }

  lemma {:induction false} AdmissionsSplit(evs: seq<Event>, i: nat, j: nat)
    requires i <= j <= |evs|
    ensures Admissions(evs, 0, j) == Admissions(evs, 0, i) + Admissions(evs, i, j)
    decreases j
  {
    if i < j {
      AdmissionsSplit(evs, i, j - 1);
    }
  }

  /** The bound on the admissions since an opening, for a history and all busier ones. */
  ghost predicate BoundHolds(evs: seq<Event>, i: nat, until: int)
    requires i <= |evs| && StateAt(evs, i).Open?
  {
    forall evs' :: Busier(evs, evs', i, until) ==>
      Admissions(evs', i, |evs'|) <= (until - StateAt(evs, i).openedAt) / OPEN_DURATION
  }

  /** Whatever attempts come in addition, the bound holds from an opening on if and only if
      no success completes: a single one, however late, lets any number of requests
      through within the thirty seconds. */
  lemma BoundIffNoSuccess(evs: seq<Event>, i: nat, until: int)
    requires i <= |evs| && Possible(evs) && Timed(evs) && StateAt(evs, i).Open?
    requires StateAt(evs, i).openedAt <= until && forall k :: 0 <= k < |evs| ==> evs[k].at <= until
    ensures BoundHolds(evs, i, until) <==> NoSuccess(evs, i, |evs|)
  {
    if NoSuccess(evs, i, |evs|) {
      forall evs' | Busier(evs, evs', i, until)
        ensures Admissions(evs', i, |evs'|) <= (until - StateAt(evs, i).openedAt) / OPEN_DURATION
      {
        BusierIsBounded(evs, evs', i, until);
      }
    } else {
      var q :| i <= q < |evs| && evs[q].Success?;
      var n: nat := (until - StateAt(evs, i).openedAt) / OPEN_DURATION + 1;
      CrowdedIsBusier(evs, i, q + 1, n, until);
      CrowdedAdmits(evs, i, q + 1, n);
    }
  }

  lemma BusierIsBounded(evs: seq<Event>, evs': seq<Event>, i: nat, until: int)
    requires i <= |evs| && NoSuccess(evs, i, |evs|) && Busier(evs, evs', i, until)
    requires StateAt(evs, i).Open? && StateAt(evs, i).openedAt <= until
    ensures Admissions(evs', i, |evs'|) <= (until - StateAt(evs, i).openedAt) / OPEN_DURATION
  {
    SuccessesKept(evs[i..], evs'[i..]);
    assert forall k :: i <= k < |evs'| ==> evs'[k] == evs'[i..][k - i];
    SameStart(evs, evs', i);
    ProbeBound(evs', i, |evs'|, until);
  }

  lemma CrowdedAdmits(evs: seq<Event>, i: nat, p: nat, n: nat)
    requires i < p <= |evs| && evs[p - 1].Success?
    ensures var evs' := Crowded(evs, p, n);
      Admissions(evs', i, |evs'|) == Admissions(evs, i, |evs|) + n
  {
    var evs' := Crowded(evs, p, n);
    BeforeCrowd(evs, p, n, i);
    CrowdedRuns(evs, p, n, |evs'|);
    AdmissionsSplit(evs, i, |evs|);
    AdmissionsSplit(evs', i, |evs'|);
  }

  lemma SameStart(evs: seq<Event>, evs': seq<Event>, i: nat)
    requires i <= |evs| && i <= |evs'| && evs'[..i] == evs[..i]
    ensures StateAt(evs', i) == StateAt(evs, i)
  {
    SamePrefix(evs[..i], evs, i);
    SamePrefix(evs[..i], evs', i);
  }

  /** An instance: of six requests let through at once five fail and the sixth succeeds, and
      then n requests get in at the very moment the breaker opened. */
  lemma LateSuccessEndsTheBound(from: int, n: nat)
    ensures var evs := Opening(from, FAILURE_THRESHOLD + 1) + [Success(from)] + seq(n, _ => Attempt(from));
      && Possible(evs) && Timed(evs) && StateAt(evs, OPENED + 1) == Open(from)
      && Admissions(evs, OPENED + 1, |evs|) == n
  {
    var before := Opening(from, FAILURE_THRESHOLD + 1);
    var closed := before + [Success(from)];
    var evs := closed + seq(n, _ => Attempt(from));
    OpeningOpens(from, FAILURE_THRESHOLD + 1);
    SamePrefix(before, closed, |before|);
    SameCompletions(before, closed, |before|);
    SameAdmissions(before, closed, 0, |before|);
    SamePossible(before, closed);
    assert closed[|before|] == Success(from);
    assert Completions(closed, |closed|) == 6 && Admissions(closed, 0, |closed|) == 6;
    assert evs == Crowded(closed, |closed|, n);
    CrowdedIsBusier(closed, 0, |closed|, n, from);
    BeforeCrowd(closed, |closed|, n, |before|);
    CrowdedRuns(closed, |closed|, n, |evs|);
    AdmissionsSplit(evs, |before|, |evs|);
  }

  // ---- The breaker and its middleware ---------------------------------------

  datatype Upstream = Response(serverError: bool) | Dropped

  datatype Answer = Unavailable | Passed(response: Upstream)

  class CircuitBreaker {
    var state: State
    var now: int
    ghost var history: seq<Event>

    ghost predicate Valid()
      reads this
    {
      && state == StateAt(history, |history|) && Timed(history)
      && forall i :: 0 <= i < |history| ==> history[i].at <= now
    }

    constructor (now: int)
      ensures Valid() && history == [] && this.now == now
    {
      state, this.now, history := Closed(0), now, [];
    }

    ghost method Record(e: Event)
      requires state == Step(StateAt(history, |history|), e) && Timed(history) && e.at == now
      requires forall i :: 0 <= i < |history| ==> history[i].at <= now
      modifies this`history
      ensures Valid() && history == old(history) + [e]
    {
      SamePrefix(history, history + [e], |history|);
      history := history + [e];
    }

    method AllowRequest() returns (allowed: bool)
      requires Valid()
      modifies this`state, this`history
      ensures Valid() && history == old(history) + [Attempt(now)]
      ensures allowed == AdmittedAt(history, |old(history)|) == LetThrough(history, |old(history)|)
      ensures FailuresSince(old(history), |old(history)|) < 5 ==> allowed
    {
      ghost var was := history;
      match state {
        case Closed(_) =>
          allowed := true;
        case Open(openedAt) =>
          if now - openedAt >= OPEN_DURATION {
            state := HalfOpen;
            allowed := true;
          } else {
            allowed := false;
          }
        case HalfOpen =>
          allowed := false;
      }
      Record(Attempt(now));
      SamePrefix(was, history, |was|);
      SameFailures(was, history, |was|);
      AdmittedIff(history, |was|);
    }

    method OnSuccess()
      requires Valid()
      modifies this`state, this`history
      ensures Valid() && history == old(history) + [Success(now)]
    {
      state := Closed(0);
      Record(Success(now));
    }

    method OnFailure()
      requires Valid()
      modifies this`state, this`history
      ensures Valid() && history == old(history) + [Failure(now)]
    {
      match state {
        case Closed(consecutiveFailures) =>
          var next := consecutiveFailures + 1;
          if next >= FAILURE_THRESHOLD {
            state := Open(now);
          } else {
            state := Closed(next);
          }
        case HalfOpen =>
          state := Open(now);
        case Open(_) =>
      }
      Record(Failure(now));
    }

    /** Other requests reach the breaker, each after some time. */
    method Others(script: seq<(nat, Event)>)
      requires Valid()
      modifies this
      ensures Valid() && old(history) <= history && |history| == |old(history)| + |script| && now >= old(now)
      ensures forall k :: 0 <= k < |script| ==> Kind(history[|old(history)| + k], script[k].1)
    {
      var i := 0;
      while i < |script|
        invariant 0 <= i <= |script|
        invariant Valid() && old(history) <= history && |history| == |old(history)| + i && now >= old(now)
        invariant forall k :: 0 <= k < i ==> Kind(history[|old(history)| + k], script[k].1)
      {
        now := now + script[i].0;
        match script[i].1 {
          case Attempt(_) => var _ := AllowRequest();
          case Success(_) => OnSuccess();
          case Failure(_) => OnFailure();
        }
        i := i + 1;
      }
    }

    /** One request through the middleware, while others come and go. What it adds to the
        history is its own attempt and, if it was let through and got a response, its own
        completion. */
    method Call(script: seq<(nat, Event)>, upstream: Upstream) returns (answer: Answer)
      requires Valid()
      modifies this
      ensures Valid() && old(history) + [Attempt(old(now))] <= history
      ensures FailuresSince(old(history), |old(history)|) < 5 ==> answer == Passed(upstream)
      ensures var n := |old(history)|;
        if !LetThrough(history, n) then answer == Unavailable && |history| == n + 1
        else
          && answer == Passed(upstream)
          && match upstream
             case Dropped => |history| == n + 1 + |script|
             case Response(true) => |history| == n + 2 + |script| && history[|history| - 1].Failure?
             case Response(false) =>
               |history| == n + 2 + |script| && history[|history| - 1].Success? && state == Closed(0)
    {
      ghost var n := |history|;
      var allowed := AllowRequest();
      ghost var tried := history;
      if !allowed {
        return Unavailable;
      }
      Others(script);
      SamePrefix(tried, history, n);
      match upstream {
        case Dropped =>
        case Response(serverError) =>
          if serverError {
            OnFailure();
          } else {
            OnSuccess();
          }
      }
      SamePrefix(tried, history, n);
      AdmittedIff(history, n);
      answer := Passed(upstream);
    }
  }

  /** The same kind of event, at whatever time. */
  predicate Kind(e: Event, e': Event) {
    (e.Attempt? <==> e'.Attempt?) && (e.Success? <==> e'.Success?)
  }
}
