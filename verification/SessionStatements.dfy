/** The same operations split into their SQL statements, with any number of them under way
    at once. rotate_refresh_token reads, then revokes, then inserts, in three statements
    without a transaction. */
module SessionStatements {
  import opened Common
  import opened Sessions

  /** Where a call stands: a rotation that has read its row, one that has revoked it, or a
      session_delete that has read its row. */
  datatype Call = Selected(session: nat, wasRevoked: bool) | Revoked(session: nat) | Deleting(session: nat)

  datatype Machine = Machine(db: Db, calls: map<nat, Call>)

  ghost predicate InRange(m: Machine) {
    forall c <- m.calls :: m.calls[c].session < |m.db.sessions|
  }

  type Sys = m: Machine | InRange(m) witness Machine(EMPTY, map[])

  datatype Statement =
    | Select(call: nat, token: string)
    | SelectOwn(call: nat, user: Id, id: nat)
    | Update(call: nat)
    | Issue(call: nat, token: string, jti: string)
    | Whole(op: Event)
    | Crash(call: nat)

  predicate Names(st: Statement, c: nat) {
    !st.Whole? && st.call == c
  }

  /** The SELECT of call c finds session p, live or revoked. */
  predicate Finds(sys: Sys, st: Statement, c: nat, p: nat, revoked: bool) {
    && st.Select? && st.call == c && c !in sys.calls
    && Lookup(sys.db, st.token) == Some(p) && sys.db.sessions[p].revoked == revoked
  }

  /** Call c revokes the session p it found live. */
  predicate Takes(sys: Sys, st: Statement, c: nat, p: nat) {
    st == Update(c) && c in sys.calls && sys.calls[c] == Selected(p, false)
  }

  /** Call c issues the pair that replaces session p. */
  predicate Issues(sys: Sys, st: Statement, c: nat, p: nat) {
    st.Issue? && st.call == c && c in sys.calls && sys.calls[c] == Revoked(p) && Unused(sys.db, st.token)
  }

  /** A statement that is not due changes nothing. */
  function Next(sys: Sys, st: Statement): Sys {
    match st
    case Select(c, token) =>
      var row := Lookup(sys.db, token);
      if c in sys.calls || row.None? then sys
      else sys.(calls := sys.calls[c := Selected(row.value, sys.db.sessions[row.value].revoked)])
    case SelectOwn(c, user, id) =>
      if c in sys.calls || !Owned(sys.db, user, id) then sys else sys.(calls := sys.calls[c := Deleting(id)])
    case Update(c) =>
      if c !in sys.calls then sys
      else
        (match sys.calls[c]
         case Selected(p, wasRevoked) =>
           if wasRevoked
           then Machine(sys.db.(sessions := RevokeUser(sys.db.sessions, sys.db.sessions[p].user)), sys.calls - {c})
           else Machine(sys.db.(sessions := Revoke(sys.db.sessions, p)), sys.calls[c := Revoked(p)])
         case Deleting(p) => Machine(sys.db.(sessions := Revoke(sys.db.sessions, p)), sys.calls - {c})
         case Revoked(_) => sys)
    case Issue(c, token, jti) =>
      if c in sys.calls && sys.calls[c].Revoked? && Unused(sys.db, token) then
        var p := sys.calls[c].session;
        Machine(Insert(sys.db, sys.db.sessions[p].user, token, jti, Some(p)), sys.calls - {c})
      else sys
    case Whole(op) =>
      if op.Rotate? || op.RevokeOne? || (op.Login? && !Unused(sys.db, op.token)) then sys
      else
        StepLater(sys.db, op);
        sys.(db := Step(sys.db, op))
    case Crash(c) => sys.(calls := sys.calls - {c})
  }

  lemma StepLater(db: Db, op: Event)
    requires !op.Rotate? && !op.RevokeOne?
    ensures Later(db, Step(db, op))
  {
  }

  /** A run: the systems between its statements. */
  ghost predicate Run(ss: seq<Sys>, sts: seq<Statement>) {
    && |ss| == |sts| + 1 && ss[0].calls == map[]
    && forall i :: 0 <= i < |sts| ==> ss[i + 1] == Next(ss[i], sts[i])
  }

  lemma NextLater(sys: Sys, st: Statement)
    ensures Later(sys.db, Next(sys, st).db)
  {
    if st.Whole? && !st.op.Rotate? && !st.op.RevokeOne? {
      StepLater(sys.db, st.op);
    }
  }

  /** However the statements interleave, a revoked session never becomes live again. */
  lemma {:induction false} RevokedForever(ss: seq<Sys>, sts: seq<Statement>, i: nat, j: nat)
    requires Run(ss, sts) && i <= j <= |sts|
    ensures Later(ss[i].db, ss[j].db)
    decreases j
  {
    if i < j {
      RevokedForever(ss, sts, i, j - 1);
      NextLater(ss[j - 1], sts[j - 1]);
      LaterTransitive(ss[i].db, ss[j - 1].db, ss[j].db);
    }
  }

  // ---- When a rotation issues a pair ----------------------------------------

  /** What a call under way has done so far. */
  ghost predicate Story(ss: seq<Sys>, sts: seq<Statement>, k: nat, c: nat, i: nat, u: nat)
    requires |ss| == |sts| + 1 && k <= |sts| && c in ss[k].calls
  {
    match ss[k].calls[c]
    case Selected(p, revoked) => i < k && Finds(ss[i], sts[i], c, p, revoked)
    case Revoked(p) =>
      && i < u < k && Finds(ss[i], sts[i], c, p, false) && Takes(ss[u], sts[u], c, p)
      && forall m :: u < m <= k ==> c in ss[m].calls
    case Deleting(_) => true
  }

  lemma CallStep(sys: Sys, st: Statement, c: nat)
    requires c in Next(sys, st).calls
    ensures var now := Next(sys, st).calls[c];
      || (c in sys.calls && now == sys.calls[c])
      || (now.Selected? && Finds(sys, st, c, now.session, now.wasRevoked))
      || (now.Revoked? && Takes(sys, st, c, now.session))
      || now.Deleting?
  {
  }

  lemma {:induction false} CallHistory(ss: seq<Sys>, sts: seq<Statement>, k: nat, c: nat) returns (i: nat, u: nat)
    requires Run(ss, sts) && k <= |sts| && c in ss[k].calls
    ensures Story(ss, sts, k, c, i, u)
  {
    i, u := 0, 0;
    CallStep(ss[k - 1], sts[k - 1], c);
    var now := ss[k].calls[c];
    if c in ss[k - 1].calls && now == ss[k - 1].calls[c] {
      i, u := CallHistory(ss, sts, k - 1, c);
    } else if now.Selected? {
      i := k - 1;
    } else if now.Revoked? {
      i, u := CallHistory(ss, sts, k - 1, c);
      u := k - 1;
    }
  }

  /** A pair is issued only by a call whose own SELECT found the session live. So a
      rotation that reads its row after the session was revoked never issues one. */
  lemma PairNeedsLiveSelect(ss: seq<Sys>, sts: seq<Statement>, k: nat, c: nat, p: nat)
      returns (i: nat, u: nat)
    requires Run(ss, sts) && k < |sts| && Issues(ss[k], sts[k], c, p)
    ensures i < u < k && Finds(ss[i], sts[i], c, p, false) && Takes(ss[u], sts[u], c, p)
    ensures forall m :: u < m <= k ==> c in ss[m].calls
    ensures forall r :: 0 <= r <= |sts| && p < |ss[r].db.sessions| && ss[r].db.sessions[p].revoked ==> i < r
  {
    i, u := CallHistory(ss, sts, k, c);
    forall r | 0 <= r <= |sts| && p < |ss[r].db.sessions| && ss[r].db.sessions[p].revoked
      ensures i < r
    {
      if r <= i {
        RevokedForever(ss, sts, r, i);
      }
    }
  }

  lemma {:induction false} CallUndisturbed(ss: seq<Sys>, sts: seq<Statement>, i: nat, j: nat, c: nat)
    requires Run(ss, sts) && i <= j <= |sts| && c in ss[i].calls
    requires forall m :: i <= m < j ==> !Names(sts[m], c)
    ensures c in ss[j].calls && ss[j].calls[c] == ss[i].calls[c]
    decreases j
  {
    if i < j {
      CallUndisturbed(ss, sts, i, j - 1, c);
      assert !Names(sts[j - 1], c);
    }
  }

  /** And whoever found it live does issue one, whatever the others do in between: the
      UPDATE does not look at what the SELECT saw. */
  lemma LiveSelectIssues(ss: seq<Sys>, sts: seq<Statement>, i: nat, u: nat, k: nat, c: nat, p: nat)
    requires Run(ss, sts) && i < u < k < |sts|
    requires Finds(ss[i], sts[i], c, p, false) && sts[u] == Update(c)
    requires sts[k].Issue? && sts[k].call == c && Unused(ss[k].db, sts[k].token)
    requires forall m :: i < m < k && m != u ==> !Names(sts[m], c)
    ensures Issues(ss[k], sts[k], c, p)
  {
    CallUndisturbed(ss, sts, i + 1, u, c);
    CallUndisturbed(ss, sts, u + 1, k, c);
  }

  lemma {:induction false} CallAbsent(ss: seq<Sys>, sts: seq<Statement>, i: nat, j: nat, c: nat)
    requires Run(ss, sts) && i <= j <= |sts| && c !in ss[i].calls
    requires forall m :: i <= m < j ==> !Names(sts[m], c)
    ensures c !in ss[j].calls
    decreases j
  {
    if i < j {
      CallAbsent(ss, sts, i, j - 1, c);
      assert !Names(sts[j - 1], c);
    }
  }

  /** Call c runs from its SELECT to its INSERT: it found session p at i, live or not, its
      UPDATE is statement u, and its INSERT statement k, with a fresh token. */
  ghost predicate Completes(ss: seq<Sys>, sts: seq<Statement>, i: nat, u: nat, k: nat, c: nat, p: nat) {
    && Run(ss, sts) && i < u < k < |sts|
    && (Finds(ss[i], sts[i], c, p, false) || Finds(ss[i], sts[i], c, p, true))
    && sts[u] == Update(c) && sts[k].Issue? && sts[k].call == c && Unused(ss[k].db, sts[k].token)
    && forall m :: i < m < k && m != u ==> !Names(sts[m], c)
  }

  /** Such a call issues a pair if and only if its SELECT found the session live. */
  lemma IssuesIffFoundLive(ss: seq<Sys>, sts: seq<Statement>, i: nat, u: nat, k: nat, c: nat, p: nat)
    requires Completes(ss, sts, i, u, k, c, p)
    ensures Issues(ss[k], sts[k], c, p) <==> !ss[i].db.sessions[p].revoked
  {
    if Finds(ss[i], sts[i], c, p, false) {
      LiveSelectIssues(ss, sts, i, u, k, c, p);
    } else {
      CallUndisturbed(ss, sts, i + 1, u, c);
      CallAbsent(ss, sts, u + 1, k, c);
    }
  }

  /** So of two completed calls on one session both issue a pair if and only if both read it
      live, and then each read it before the other one revoked it. */
  lemma BothIssueIffBothFoundLive(ss: seq<Sys>, sts: seq<Statement>, i: nat, u: nat, k: nat, c: nat,
                                  i': nat, u': nat, k': nat, c': nat, p: nat)
    requires Completes(ss, sts, i, u, k, c, p) && Completes(ss, sts, i', u', k', c', p)
    ensures Issues(ss[k], sts[k], c, p) && Issues(ss[k'], sts[k'], c', p)
            <==> !ss[i].db.sessions[p].revoked && !ss[i'].db.sessions[p].revoked
    ensures Issues(ss[k], sts[k], c, p) && Issues(ss[k'], sts[k'], c', p) ==> i < u' && i' < u
  {
    IssuesIffFoundLive(ss, sts, i, u, k, c, p);
    IssuesIffFoundLive(ss, sts, i', u', k', c', p);
    if !ss[i].db.sessions[p].revoked && !ss[i'].db.sessions[p].revoked {
      ReadBeforeTaken(ss, sts, i, u, c, i', p);
      ReadBeforeTaken(ss, sts, i', u', c', i, p);
    }
  }

  /** A SELECT that finds a session live comes before any UPDATE that revokes it. */
  lemma ReadBeforeTaken(ss: seq<Sys>, sts: seq<Statement>, i: nat, u: nat, c: nat, i': nat, p: nat)
    requires Run(ss, sts) && i < u < |sts| && i' < |sts| && Finds(ss[i], sts[i], c, p, false)
    requires sts[u] == Update(c) && forall m :: i < m < u ==> !Names(sts[m], c)
    requires sts[i'].Select? && p < |ss[i'].db.sessions| && !ss[i'].db.sessions[p].revoked
    ensures i' < u
  {
    CallUndisturbed(ss, sts, i + 1, u, c);
    assert ss[u + 1].db.sessions[p].revoked;
    if u + 1 <= i' {
      RevokedForever(ss, sts, u + 1, i');
    }
  }

  /** Two calls can both replace one session, but only if each of them read the row before
      the other one revoked it. */
  lemma BothIssueOnlyIfOverlapping(ss: seq<Sys>, sts: seq<Statement>, k: nat, c: nat, k': nat, c': nat, p: nat)
      returns (i: nat, u: nat, i': nat, u': nat)
    requires Run(ss, sts) && k < |sts| && k' < |sts|
    requires Issues(ss[k], sts[k], c, p) && Issues(ss[k'], sts[k'], c', p)
    ensures i < u < k && Finds(ss[i], sts[i], c, p, false) && Takes(ss[u], sts[u], c, p)
    ensures i' < u' < k' && Finds(ss[i'], sts[i'], c', p, false) && Takes(ss[u'], sts[u'], c', p)
    ensures i < u' && i' < u
  {
    i, u := PairNeedsLiveSelect(ss, sts, k, c, p);
    i', u' := PairNeedsLiveSelect(ss, sts, k', c', p);
    assert ss[u + 1].db.sessions[p].revoked && i' < u + 1;
    assert ss[u' + 1].db.sessions[p].revoked && i < u' + 1;
  }

  /** Two rotations of one token, up to and including both their UPDATEs. */
  function BothTaken(sys: Sys, c: nat, c': nat, token: string): Sys {
    Next(Next(Next(Next(sys, Select(c, token)), Select(c', token)), Update(c)), Update(c'))
  }

  lemma BothTake(sys: Sys, c: nat, c': nat, token: string, p: nat)
    requires c != c' && c !in sys.calls && c' !in sys.calls
    requires Lookup(sys.db, token) == Some(p) && !sys.db.sessions[p].revoked
    ensures var taken := BothTaken(sys, c, c', token);
      && taken.db == sys.db.(sessions := Revoke(sys.db.sessions, p))
      && taken.calls == sys.calls[c := Revoked(p)][c' := Revoked(p)]
  {
    var read := Next(Next(sys, Select(c, token)), Select(c', token));
    assert read.db == sys.db && read.calls == sys.calls[c := Selected(p, false)][c' := Selected(p, false)];
  }

  /** And that does happen: with two overlapping calls, any live token is exchanged for two
      live pairs, so the one-live-session-per-login rule of the atomic step is lost. */
  lemma OneTokenTwoPairs(sys: Sys, c: nat, c': nat, token: string, p: nat, t: string, t': string, jti: string)
    requires c != c' && c !in sys.calls && c' !in sys.calls && |sys.db.lineage| == |sys.db.sessions|
    requires Lookup(sys.db, token) == Some(p) && !sys.db.sessions[p].revoked
    requires t != t' && Unused(sys.db, t) && Unused(sys.db, t')
    ensures var end := Next(Next(BothTaken(sys, c, c', token), Issue(c, t, jti)), Issue(c', t', jti));
      var n := |sys.db.sessions|;
      var again := Origin(sys.db.lineage[p].login, Some(p));
      && end.db.lineage == sys.db.lineage + [again, again]
      && |end.db.sessions| == n + 2 && !end.db.sessions[n].revoked && !end.db.sessions[n + 1].revoked
      && !OneLivePerLogin(end.db)
  {
    BothTake(sys, c, c', token, p);
    var taken := BothTaken(sys, c, c', token);
    var n := |sys.db.sessions|;
    assert Unused(taken.db, t) && Unused(taken.db, t');
    var first := Next(taken, Issue(c, t, jti));
    assert first.db == Insert(taken.db, taken.db.sessions[p].user, t, jti, Some(p));
    assert Unused(first.db, t');
    var end := Next(first, Issue(c', t', jti));
    assert end.db == Insert(first.db, first.db.sessions[p].user, t', jti, Some(p));
    TwoLive(end.db, n, n + 1);
  }

  lemma TwoLive(db: Db, i: nat, j: nat)
    requires i < j < |db.sessions| == |db.lineage| && db.lineage[i].login == db.lineage[j].login
    requires !db.sessions[i].revoked
    ensures !OneLivePerLogin(db)
  {
  }

  // ---- What revoke-all leaves -----------------------------------------------

  lemma InsertionStep(sys: Sys, st: Statement, j: nat)
    requires |sys.db.sessions| == |sys.db.lineage| <= j < |Next(sys, st).db.sessions|
    ensures |Next(sys, st).db.lineage| == |Next(sys, st).db.sessions|
    ensures || (st.Whole? && Next(sys, st).db.lineage[j].parent == None)
            || (exists c: nat, p: nat :: Issues(sys, st, c, p) && Next(sys, st).db.lineage[j].parent == Some(p)
                  && Next(sys, st).db.sessions[j].user == sys.db.sessions[p].user)
  {
    if st.Issue? {
      assert Issues(sys, st, st.call, sys.calls[st.call].session);
    }
  }

  lemma {:induction false} LineageGrows(ss: seq<Sys>, sts: seq<Statement>, i: nat, j: nat)
    requires Run(ss, sts) && i <= j <= |sts| && |ss[0].db.lineage| == |ss[0].db.sessions|
    ensures |ss[i].db.lineage| == |ss[i].db.sessions| && ss[i].db.lineage <= ss[j].db.lineage
    ensures |ss[j].db.lineage| == |ss[j].db.sessions|
    decreases j
  {
    if i < j {
      LineageGrows(ss, sts, i, j - 1);
    } else if i > 0 {
      LineageGrows(ss, sts, i - 1, i - 1);
    }
  }

  /** The statement that inserted a session. */
  lemma {:induction false} Inserted(ss: seq<Sys>, sts: seq<Statement>, k: nat, m: nat, j: nat) returns (q: nat)
    requires Run(ss, sts) && k <= m <= |sts| && |ss[0].db.lineage| == |ss[0].db.sessions|
    requires |ss[k].db.sessions| <= j < |ss[m].db.sessions|
    ensures k <= q < m && |ss[q].db.sessions| <= j < |ss[q + 1].db.sessions|
    decreases m
  {
    if j < |ss[m - 1].db.sessions| {
      q := Inserted(ss, sts, k, m - 1, j);
    } else {
      q := m - 1;
    }
  }

  /** A statement that revokes every session of a user: a revoke-all, or the UPDATE of a
      rotation that found its token revoked and takes it for theft. */
  predicate SignsOut(sys: Sys, st: Statement, user: Id) {
    || st == Whole(RevokeAll(user))
    || (&& st.Update? && st.call in sys.calls
        && var call := sys.calls[st.call];
          call.Selected? && call.wasRevoked && sys.db.sessions[call.session].user == user)
  }

  lemma SignedOut(sys: Sys, st: Statement, user: Id)
    requires SignsOut(sys, st, user)
    ensures Next(sys, st).db == sys.db.(sessions := RevokeUser(sys.db.sessions, user))
  {
  }

  lemma NobodySignedIn(sys: Sys, st: Statement, user: Id)
    requires SignsOut(sys, st, user)
    ensures LiveCount(Next(sys, st).db.sessions, user) == 0
  {
    SignedOut(sys, st, user);
    RevokeUserCount(sys.db.sessions, user, user);
  }

  /** Call c read session p of the user live before statement k, and issues its pair after
      it, as statement q. */
  ghost predicate Overlaps(ss: seq<Sys>, sts: seq<Statement>, i: nat, k: nat, q: nat, c: nat, p: nat, user: Id)
    requires |ss| == |sts| + 1
  {
    && i < k < q < |sts| && Finds(ss[i], sts[i], c, p, false) && Issues(ss[q], sts[q], c, p)
    && ss[q].db.sessions[p].user == user
  }

  ghost predicate LoginAfter(sts: seq<Statement>, k: nat, m: nat, user: Id)
    requires m <= |sts|
  {
    exists l :: k < l < m && sts[l].Whole? && sts[l].op.Login? && sts[l].op.user == user
  }

  ghost predicate OverlapBefore(ss: seq<Sys>, sts: seq<Statement>, k: nat, m: nat, user: Id)
    requires |ss| == |sts| + 1
  {
    exists i: nat, q: nat, c: nat, p: nat :: q < m && Overlaps(ss, sts, i, k, q, c, p, user)
  }

  /** The statement that inserts a session is a login of its user, or issues it in place of
      another session of that user. */
  lemma InsertedBy(sys: Sys, st: Statement, j: nat) returns (c: nat, p: nat)
    requires |sys.db.sessions| <= j < |Next(sys, st).db.sessions|
    ensures var user := Next(sys, st).db.sessions[j].user;
      || (st.Whole? && st.op.Login? && st.op.user == user)
      || (p < j && Issues(sys, st, c, p) && sys.db.sessions[p].user == user)
  {
    c, p := 0, 0;
    if st.Issue? {
      c, p := st.call, sys.calls[st.call].session;
    }
  }

  /** Every session of a user that was inserted after the user was signed out goes back, from
      replacement to replacement, to a login after it or to a rotation that overlaps it. */
  lemma {:induction false} TracesBack(ss: seq<Sys>, sts: seq<Statement>, k: nat, m: nat, j: nat, user: Id)
    requires Run(ss, sts) && k < m <= |sts| && |ss[0].db.lineage| == |ss[0].db.sessions|
    requires SignsOut(ss[k], sts[k], user)
    requires |ss[k].db.sessions| <= j < |ss[m].db.sessions| && ss[m].db.sessions[j].user == user
    ensures LoginAfter(sts, k, m, user) || OverlapBefore(ss, sts, k, m, user)
    decreases j
  {
    SignedOut(ss[k], sts[k], user);
    var q := Inserted(ss, sts, k + 1, m, j);
    RevokedForever(ss, sts, q + 1, m);
    var c, p := InsertedBy(ss[q], sts[q], j);
    if !(sts[q].Whole? && sts[q].op.Login? && sts[q].op.user == user) {
      if p < |ss[k].db.sessions| {
        OverlapsOldRow(ss, sts, k, q, c, p, user);
      } else {
        TracesBack(ss, sts, k, q, p, user);
      }
    }
  }

  /** A pair issued in place of a row there was when the user was signed out. */
  lemma OverlapsOldRow(ss: seq<Sys>, sts: seq<Statement>, k: nat, q: nat, c: nat, p: nat, user: Id)
    requires Run(ss, sts) && k < q < |sts| && SignsOut(ss[k], sts[k], user)
    requires p < |ss[k].db.sessions| && Issues(ss[q], sts[q], c, p) && ss[q].db.sessions[p].user == user
    ensures exists i: nat :: Overlaps(ss, sts, i, k, q, c, p, user)
  {
    SignedOut(ss[k], sts[k], user);
    var i, u := PairNeedsLiveSelect(ss, sts, q, c, p);
    RevokedForever(ss, sts, k, q);
    assert ss[k].db.sessions[p].user == user && ss[k + 1].db.sessions[p].revoked;
    assert i < k + 1;
    assert Overlaps(ss, sts, i, k, q, c, p, user);
  }

  /** After a user is signed out, the sessions of that user that are live at any later time
      were all inserted after it, and there was a login of the user or an overlapping
      rotation since; one that replaces a session there was at the time was issued by a
      rotation that had read its row before. */
  lemma RevokeAllLeavesOverlapping(ss: seq<Sys>, sts: seq<Statement>, k: nat, m: nat, j: nat, user: Id)
      returns (i: nat, q: nat, c: nat)
    requires Run(ss, sts) && k < m <= |sts| && |ss[0].db.lineage| == |ss[0].db.sessions|
    requires SignsOut(ss[k], sts[k], user)
    requires j < |ss[m].db.sessions| && ss[m].db.sessions[j].user == user && !ss[m].db.sessions[j].revoked
    ensures |ss[m].db.lineage| == |ss[m].db.sessions| && j >= |ss[k].db.sessions|
    ensures LoginAfter(sts, k, m, user) || OverlapBefore(ss, sts, k, m, user)
    ensures var parent := ss[m].db.lineage[j].parent;
      parent.Some? && parent.value < |ss[k].db.sessions| ==> Overlaps(ss, sts, i, k, q, c, parent.value, user) && q < m
  {
    i, q, c := 0, 0, 0;
    LiveIsNewer(ss, sts, k, m, j, user);
    LineageGrows(ss, sts, m, m);
    TracesBack(ss, sts, k, m, j, user);
    var parent := ss[m].db.lineage[j].parent;
    if parent.Some? && parent.value < |ss[k].db.sessions| {
      i, q, c := ParentOverlaps(ss, sts, k, m, j, parent.value, user);
    }
  }

  lemma LiveIsNewer(ss: seq<Sys>, sts: seq<Statement>, k: nat, m: nat, j: nat, user: Id)
    requires Run(ss, sts) && k < m <= |sts| && SignsOut(ss[k], sts[k], user)
    requires j < |ss[m].db.sessions| && ss[m].db.sessions[j].user == user && !ss[m].db.sessions[j].revoked
    ensures j >= |ss[k].db.sessions| == |ss[k + 1].db.sessions|
  {
    SignedOut(ss[k], sts[k], user);
    RevokedForever(ss, sts, k + 1, m);
    OldRowsRevoked(ss[k].db.sessions, ss[m].db.sessions, user);
  }

  lemma OldRowsRevoked(sessions: seq<Session>, later: seq<Session>, user: Id)
    requires MoreRevoked(RevokeUser(sessions, user), later)
    ensures forall j :: 0 <= j < |sessions| && later[j].user == user ==> later[j].revoked
  {
  }

  lemma ParentOverlaps(ss: seq<Sys>, sts: seq<Statement>, k: nat, m: nat, j: nat, p: nat, user: Id)
      returns (i: nat, q: nat, c: nat)
    requires Run(ss, sts) && k < m <= |sts| && |ss[0].db.lineage| == |ss[0].db.sessions|
    requires SignsOut(ss[k], sts[k], user) && p < |ss[k].db.sessions|
    requires |ss[k + 1].db.sessions| <= j < |ss[m].db.sessions| == |ss[m].db.lineage|
    requires ss[m].db.lineage[j].parent == Some(p) && ss[m].db.sessions[j].user == user
    ensures q < m && Overlaps(ss, sts, i, k, q, c, p, user)
  {
    q, c := ReplacedBy(ss, sts, k, m, j, p);
    RevokedForever(ss, sts, q + 1, m);
    OverlapsOldRow(ss, sts, k, q, c, p, user);
    var i0: nat :| Overlaps(ss, sts, i0, k, q, c, p, user);
    i := i0;
  }

  /** The statement that issued a session in place of its parent. */
  lemma ReplacedBy(ss: seq<Sys>, sts: seq<Statement>, k: nat, m: nat, j: nat, p: nat) returns (q: nat, c: nat)
    requires Run(ss, sts) && k < m <= |sts| && |ss[0].db.lineage| == |ss[0].db.sessions|
    requires |ss[k + 1].db.sessions| <= j < |ss[m].db.sessions| == |ss[m].db.lineage|
    requires ss[m].db.lineage[j].parent == Some(p)
    ensures k < q < m && Issues(ss[q], sts[q], c, p) && j < |ss[q + 1].db.sessions|
    ensures ss[q + 1].db.sessions[j].user == ss[q].db.sessions[p].user
  {
    q := Inserted(ss, sts, k + 1, m, j);
    LineageGrows(ss, sts, q, q + 1);
    LineageGrows(ss, sts, q + 1, m);
    InsertionStep(ss[q], sts[q], j);
    var c0: nat, p0: nat :| Issues(ss[q], sts[q], c0, p0) && ss[q + 1].db.lineage[j].parent == Some(p0)
      && ss[q + 1].db.sessions[j].user == ss[q].db.sessions[p0].user;
    c := c0;
  }

  lemma {:induction false} NoneLive(sessions: seq<Session>, user: Id)
    ensures LiveCount(sessions, user) == 0 <==>
      forall j :: 0 <= j < |sessions| && sessions[j].user == user ==> sessions[j].revoked
  {
    if |sessions| > 0 {
      NoneLive(sessions[..|sessions| - 1], user);
      assert forall j :: 0 <= j < |sessions| - 1 ==> sessions[..|sessions| - 1][j] == sessions[j];
    }
  }

  /** And such a rotation does survive: a completed call that read session p live before its
      user is signed out, and inserts after it, leaves the user with a live session,
      although there was none right after the signing out. */
  lemma RotationSurvivesRevokeAll(ss: seq<Sys>, sts: seq<Statement>, i: nat, u: nat, k: nat, c: nat, p: nat, r: nat)
    requires Completes(ss, sts, i, u, k, c, p) && !ss[i].db.sessions[p].revoked && i < r < k
    requires SignsOut(ss[r], sts[r], ss[i].db.sessions[p].user)
    ensures var user := ss[i].db.sessions[p].user;
      LiveCount(ss[r + 1].db.sessions, user) == 0 && LiveCount(ss[k + 1].db.sessions, user) > 0
  {
    var user := ss[i].db.sessions[p].user;
    NobodySignedIn(ss[r], sts[r], user);
    IssuesIffFoundLive(ss, sts, i, u, k, c, p);
    RevokedForever(ss, sts, i, k);
    IssuedIsLive(ss, sts, k, c, p);
  }

  lemma IssuedIsLive(ss: seq<Sys>, sts: seq<Statement>, q: nat, c: nat, p: nat)
    requires Run(ss, sts) && q < |sts| && Issues(ss[q], sts[q], c, p)
    ensures LiveCount(ss[q + 1].db.sessions, ss[q].db.sessions[p].user) > 0
  {
    var n, user := |ss[q].db.sessions|, ss[q].db.sessions[p].user;
    assert ss[q + 1].db.sessions[n].user == user && !ss[q + 1].db.sessions[n].revoked;
    NoneLive(ss[q + 1].db.sessions, user);
  }

  ghost predicate StaysSignedOut(ss: seq<Sys>, k: nat, user: Id) {
    forall m :: k < m < |ss| ==> LiveCount(ss[m].db.sessions, user) == 0
  }

  /** So a user who is signed out and does not log in again stays signed out for the rest of
      the run if and only if no rotation that read one of the user's sessions live before it
      issues a pair after it. */
  lemma SignOutHoldsIff(ss: seq<Sys>, sts: seq<Statement>, k: nat, user: Id)
    requires Run(ss, sts) && |ss[0].db.lineage| == |ss[0].db.sessions|
    requires k < |sts| && SignsOut(ss[k], sts[k], user) && !LoginAfter(sts, k, |sts|, user)
    ensures StaysSignedOut(ss, k, user) <==> !OverlapBefore(ss, sts, k, |sts|, user)
  {
    if OverlapBefore(ss, sts, k, |sts|, user) {
      var i: nat, q: nat, c: nat, p: nat :| q < |sts| && Overlaps(ss, sts, i, k, q, c, p, user);
      IssuedIsLive(ss, sts, q, c, p);
    } else {
      forall m | k < m < |ss|
        ensures LiveCount(ss[m].db.sessions, user) == 0
      {
        NoOverlapNoneLive(ss, sts, k, m, user);
      }
    }
  }

  lemma NoOverlapNoneLive(ss: seq<Sys>, sts: seq<Statement>, k: nat, m: nat, user: Id)
    requires Run(ss, sts) && k < m <= |sts| && |ss[0].db.lineage| == |ss[0].db.sessions|
    requires SignsOut(ss[k], sts[k], user)
    requires !LoginAfter(sts, k, |sts|, user) && !OverlapBefore(ss, sts, k, |sts|, user)
    ensures LiveCount(ss[m].db.sessions, user) == 0
  {
    NoneLive(ss[m].db.sessions, user);
    forall j | 0 <= j < |ss[m].db.sessions| && ss[m].db.sessions[j].user == user
      ensures ss[m].db.sessions[j].revoked
    {
      if !ss[m].db.sessions[j].revoked {
        var i, q, c := RevokeAllLeavesOverlapping(ss, sts, k, m, j, user);
      }
    }
  }

  // ---- Exactly when the chains stay linear ----------------------------------

  /** What holds under every interleaving. */
  ghost predicate Base(sys: Sys) {
    && TokensDistinct(sys.db.sessions) && ChainsOk(sys.db.sessions, sys.db.lineage)
    && forall c <- sys.calls :: sys.calls[c].Revoked? ==> sys.db.sessions[sys.calls[c].session].revoked
  }

  lemma RevokingKeepsBase(sys: Sys, ss': seq<Session>)
    requires Base(sys) && MoreRevoked(sys.db.sessions, ss') && |ss'| == |sys.db.sessions|
    ensures Base(sys.(db := sys.db.(sessions := ss')))
  {
  }

  lemma InsertKeepsBase(sys: Sys, user: Id, token: string, jti: string, parent: Option<nat>)
    requires Base(sys) && Unused(sys.db, token)
    requires match parent
             case None => true
             case Some(p) => p < |sys.db.sessions| && sys.db.sessions[p].revoked && sys.db.sessions[p].user == user
    ensures Base(sys.(db := Insert(sys.db, user, token, jti, parent)))
  {
  }

  lemma UpdateKeepsBase(sys: Sys, c: nat)
    requires Base(sys)
    ensures Base(Next(sys, Update(c)))
  {
    if c in sys.calls && !sys.calls[c].Revoked? {
      RevokingKeepsBase(sys, Next(sys, Update(c)).db.sessions);
    }
  }

  lemma IssueKeepsBase(sys: Sys, c: nat, token: string, jti: string)
    requires Base(sys)
    ensures Base(Next(sys, Issue(c, token, jti)))
  {
    if c in sys.calls && sys.calls[c].Revoked? && Unused(sys.db, token) {
      var p := sys.calls[c].session;
      InsertKeepsBase(sys, sys.db.sessions[p].user, token, jti, Some(p));
    }
  }

  lemma WholeKeepsBase(sys: Sys, op: Event)
    requires Base(sys)
    ensures Base(Next(sys, Whole(op)))
  {
    match op
    case Login(user, token, jti) =>
      if Unused(sys.db, token) {
        InsertKeepsBase(sys, user, token, jti, None);
      }
    case _ => RevokingKeepsBase(sys, Next(sys, Whole(op)).db.sessions);
  }

  lemma NextKeepsBase(sys: Sys, st: Statement)
    requires Base(sys)
    ensures Base(Next(sys, st))
  {
    match st
    case Update(c) => UpdateKeepsBase(sys, c);
    case Issue(c, token, jti) => IssueKeepsBase(sys, c, token, jti);
    case Whole(op) => WholeKeepsBase(sys, op);
    case _ =>
  }

  lemma {:induction false} RunKeepsBase(ss: seq<Sys>, sts: seq<Statement>, m: nat)
    requires Run(ss, sts) && Inv(ss[0].db) && m <= |sts|
    ensures Base(ss[m])
  {
    if m > 0 {
      RunKeepsBase(ss, sts, m - 1);
      NextKeepsBase(ss[m - 1], sts[m - 1]);
    }
  }

  /** If no session was replaced twice, an older session of a login has been replaced. */
  lemma {:induction false} HasSuccessor(db: Db, i: nat, j: nat) returns (k: nat)
    requires ChainsOk(db.sessions, db.lineage) && ReplacedOnce(db.lineage)
    requires i < j < |db.sessions| && db.lineage[i].login == db.lineage[j].login
    ensures i < k <= j && db.lineage[k].parent == Some(i)
    decreases j
  {
    LoginFirst(db, i);
    var p := db.lineage[j].parent.value;
    if p == i {
      k := j;
    } else if p > i {
      k := HasSuccessor(db, i, p);
    } else {
      k := HasSuccessor(db, p, i);
    }
  }

  lemma {:induction false} LoginFirst(db: Db, i: nat)
    requires ChainsOk(db.sessions, db.lineage) && i < |db.sessions|
    ensures db.lineage[i].login <= i
    decreases i
  {
    if db.lineage[i].parent.Some? {
      LoginFirst(db, db.lineage[i].parent.value);
    }
  }

  /** Under every interleaving, the rules of the atomic step hold exactly as long as no
      session has been replaced twice. */
  lemma InvIffReplacedOnce(ss: seq<Sys>, sts: seq<Statement>, m: nat)
    requires Run(ss, sts) && Inv(ss[0].db) && m <= |sts|
    ensures Inv(ss[m].db) <==> ReplacedOnce(ss[m].db.lineage)
  {
    RunKeepsBase(ss, sts, m);
    var db := ss[m].db;
    if ReplacedOnce(db.lineage) {
      forall i: nat, j: nat | i < j < |db.sessions| && db.lineage[i].login == db.lineage[j].login
        ensures db.sessions[i].revoked
      {
        var k := HasSuccessor(db, i, j);
      }
      forall i: nat | i < |db.sessions|
        ensures db.lineage[i].login <= i
      {
        LoginFirst(db, i);
      }
    }
  }

  /** Issuing a pair keeps the rule of one live session per login exactly if no other session
      of that login is live at the time. */
  lemma IssueKeepsTipsIff(sys: Sys, st: Statement, c: nat, p: nat)
    requires TipsOnly(sys.db.sessions, sys.db.lineage) && Issues(sys, st, c, p)
    ensures TipsOnly(Next(sys, st).db.sessions, Next(sys, st).db.lineage) <==> LoginSpent(sys.db, p)
  {
    var db, db' := sys.db, Next(sys, st).db;
    var n := |db.sessions|;
    assert db'.lineage[n].login == db.lineage[p].login;
    if LoginSpent(db, p) {
      TipsPush(db.sessions, db.lineage, db'.sessions[n], db'.lineage[n]);
    } else {
      var i :| 0 <= i < n && db.lineage[i].login == db.lineage[p].login && !db.sessions[i].revoked;
      assert db'.sessions[i] == db.sessions[i] && db'.lineage[i] == db.lineage[i];
    }
  }

  /** No session of the login of p is live. */
  ghost predicate LoginSpent(db: Db, p: nat) {
    && p < |db.lineage| == |db.sessions|
    && forall i :: 0 <= i < |db.sessions| && db.lineage[i].login == db.lineage[p].login ==> db.sessions[i].revoked
  }

  lemma OtherKeepsTips(sys: Sys, st: Statement)
    requires Base(sys) && TipsOnly(sys.db.sessions, sys.db.lineage)
    requires forall c: nat, p: nat :: !Issues(sys, st, c, p)
    ensures TipsOnly(Next(sys, st).db.sessions, Next(sys, st).db.lineage)
  {
    if st.Issue? && st.call in sys.calls {
      assert !Issues(sys, st, st.call, sys.calls[st.call].session);
    }
    if st.Whole? && st.op.Login? && Next(sys, st) != sys {
      var db := sys.db;
      var db' := Next(sys, st).db;
      assert forall i :: 0 <= i < |db.sessions| ==> db.lineage[i].login < |db.sessions|;
      TipsPush(db.sessions, db.lineage, db'.sessions[|db.sessions|], db'.lineage[|db.sessions|]);
    } else {
      NextLater(sys, st);
    }
  }

  lemma OneLiveIffTips(db: Db)
    requires ChainsOk(db.sessions, db.lineage)
    ensures OneLivePerLogin(db) <==> TipsOnly(db.sessions, db.lineage)
  {
    forall i: nat | i < |db.sessions|
      ensures db.lineage[i].login <= i
    {
      LoginFirst(db, i);
    }
  }

  /** No rotation inserts while a session of the login it continues is live. */
  ghost predicate InsertsIntoSpent(ss: seq<Sys>, sts: seq<Statement>)
    requires |ss| == |sts| + 1
  {
    forall k: nat, c: nat, p: nat :: k < |sts| && Issues(ss[k], sts[k], c, p) ==> LoginSpent(ss[k].db, p)
  }

  ghost predicate AlwaysOneLive(ss: seq<Sys>) {
    forall m :: 0 <= m < |ss| ==> OneLivePerLogin(ss[m].db)
  }

  /** Under every interleaving, each login has at most one live session, its newest, at
      every point of a run if and only if no rotation inserts while a session of the login
      it continues is live. */
  lemma AlwaysOneLiveIff(ss: seq<Sys>, sts: seq<Statement>)
    requires Run(ss, sts) && Inv(ss[0].db)
    ensures AlwaysOneLive(ss) <==> InsertsIntoSpent(ss, sts)
  {
    if InsertsIntoSpent(ss, sts) {
      forall m | 0 <= m < |ss|
        ensures OneLivePerLogin(ss[m].db)
      {
        SpentKeepsTips(ss, sts, m);
        RunKeepsBase(ss, sts, m);
        OneLiveIffTips(ss[m].db);
      }
    }
    if AlwaysOneLive(ss) {
      forall k: nat, c: nat, p: nat | k < |sts| && Issues(ss[k], sts[k], c, p)
        ensures LoginSpent(ss[k].db, p)
      {
        OneLiveNeedsSpent(ss, sts, k, c, p);
      }
    }
  }

  lemma OneLiveNeedsSpent(ss: seq<Sys>, sts: seq<Statement>, k: nat, c: nat, p: nat)
    requires Run(ss, sts) && Inv(ss[0].db) && k < |sts| && Issues(ss[k], sts[k], c, p)
    requires OneLivePerLogin(ss[k].db) && OneLivePerLogin(ss[k + 1].db)
    ensures LoginSpent(ss[k].db, p)
  {
    RunKeepsBase(ss, sts, k);
    RunKeepsBase(ss, sts, k + 1);
    OneLiveIffTips(ss[k].db);
    OneLiveIffTips(ss[k + 1].db);
    IssueKeepsTipsIff(ss[k], sts[k], c, p);
  }

  lemma {:induction false} SpentKeepsTips(ss: seq<Sys>, sts: seq<Statement>, m: nat)
    requires Run(ss, sts) && Inv(ss[0].db) && m <= |sts| && InsertsIntoSpent(ss, sts)
    ensures TipsOnly(ss[m].db.sessions, ss[m].db.lineage)
  {
    if m > 0 {
      SpentKeepsTips(ss, sts, m - 1);
      RunKeepsBase(ss, sts, m - 1);
      var sys, st := ss[m - 1], sts[m - 1];
      if st.Issue? && st.call in sys.calls && Issues(sys, st, st.call, sys.calls[st.call].session) {
        IssueKeepsTipsIff(sys, st, st.call, sys.calls[st.call].session);
      } else {
        OtherKeepsTips(sys, st);
      }
    }
  }

  /** The two statements that replaced one session twice revoked it twice. */
  lemma TakenTwice(ss: seq<Sys>, sts: seq<Statement>, q: nat, c: nat, q': nat, c': nat, p: nat) returns (u: nat,
                   u': nat)
    requires Run(ss, sts) && q < q' < |sts|
    requires Issues(ss[q], sts[q], c, p) && Issues(ss[q'], sts[q'], c', p)
    ensures u != u' && u < |sts| && u' < |sts| && Takes(ss[u], sts[u], c, p) && Takes(ss[u'], sts[u'], c', p)
  {
    var _, u0 := PairNeedsLiveSelect(ss, sts, q, c, p);
    var _, u1 := PairNeedsLiveSelect(ss, sts, q', c', p);
    u, u' := u0, u1;
    assert c !in ss[q + 1].calls;
  }

  /** So it is enough that the UPDATE of a rotation never hits a session that was revoked
      since it was read, which a check of the affected rows would ensure. */
  lemma ConditionalUpdateSuffices(ss: seq<Sys>, sts: seq<Statement>, m: nat)
    requires Run(ss, sts) && ss[0].db == EMPTY && m <= |sts|
    requires forall u, c: nat, p: nat :: 0 <= u < |sts| && Takes(ss[u], sts[u], c, p) ==> !ss[u].db.sessions[p].revoked
    ensures Inv(ss[m].db) && OneLivePerLogin(ss[m].db)
  {
    forall i: nat, j: nat | i < j < |ss[m].db.lineage| && ss[m].db.lineage[i].parent.Some?
      ensures ss[m].db.lineage[i].parent != ss[m].db.lineage[j].parent
    {
      if ss[m].db.lineage[i].parent == ss[m].db.lineage[j].parent {
        var p := ss[m].db.lineage[i].parent.value;
        var q, c := IssuedAt(ss, sts, m, i, p);
        var q', c' := IssuedAt(ss, sts, m, j, p);
        Ordered(ss, sts, q, q');
        var u, u' := TakenTwice(ss, sts, q, c, q', c', p);
        TakenOnce(ss, sts, u, c, u', c', p);
      }
    }
    InvIffReplacedOnce(ss, sts, m);
    TipIsLatest(ss[m].db);
  }

  lemma Ordered(ss: seq<Sys>, sts: seq<Statement>, q: nat, q': nat)
    requires Run(ss, sts) && q <= |sts| && q' <= |sts| && |ss[q].db.sessions| < |ss[q'].db.sessions|
    ensures q < q'
  {
    if q' <= q {
      RevokedForever(ss, sts, q', q);
    }
  }

  lemma TakenOnce(ss: seq<Sys>, sts: seq<Statement>, u: nat, c: nat, u': nat, c': nat, p: nat)
    requires Run(ss, sts) && u < |sts| && u' < |sts|
    requires Takes(ss[u], sts[u], c, p) && !ss[u].db.sessions[p].revoked
    requires Takes(ss[u'], sts[u'], c', p) && !ss[u'].db.sessions[p].revoked
    ensures u == u'
  {
    assert ss[u + 1].db.sessions[p].revoked && ss[u' + 1].db.sessions[p].revoked;
    if u + 1 <= u' {
      RevokedForever(ss, sts, u + 1, u');
    } else if u' + 1 <= u {
      RevokedForever(ss, sts, u' + 1, u);
    }
  }

  /** The statement that issued the replacement of a session. */
  lemma IssuedAt(ss: seq<Sys>, sts: seq<Statement>, m: nat, j: nat, p: nat) returns (q: nat, c: nat)
    requires Run(ss, sts) && ss[0].db == EMPTY && m <= |sts|
    requires j < |ss[m].db.lineage| && ss[m].db.lineage[j].parent == Some(p)
    ensures q < m && Issues(ss[q], sts[q], c, p) && |ss[q].db.sessions| == j
  {
    LineageGrows(ss, sts, m, m);
    q := Inserted(ss, sts, 0, m, j);
    LineageGrows(ss, sts, q, q + 1);
    LineageGrows(ss, sts, q + 1, m);
    InsertionStep(ss[q], sts[q], j);
    var c0: nat, p0: nat :| Issues(ss[q], sts[q], c0, p0) && ss[q + 1].db.lineage[j].parent == Some(p0);
    c := c0;
  }

  // ---- The atomic step, when nothing comes in between -----------------------

  /** Run back to back, the statements of a rotation are the atomic step of module Sessions. */
  lemma BackToBackIsAtomic(sys: Sys, c: nat, token: string, newToken: string, newJti: string)
    requires c !in sys.calls && Unused(sys.db, newToken)
    ensures var end := Next(Next(Next(sys, Select(c, token)), Update(c)), Issue(c, newToken, newJti));
      end.db == Step(sys.db, Rotate(token, newToken, newJti)) && end.calls == sys.calls
  {
    var row := Lookup(sys.db, token);
    var read := Next(sys, Select(c, token));
    if row.Some? {
      assert read.calls == sys.calls[c := Selected(row.value, sys.db.sessions[row.value].revoked)];
      var taken := Next(read, Update(c));
      if sys.db.sessions[row.value].revoked {
        assert taken.calls == sys.calls;
      } else {
        assert taken.calls == sys.calls[c := Revoked(row.value)];
        assert Unused(taken.db, newToken);
        assert sys.calls[c := Revoked(row.value)] - {c} == sys.calls;
      }
    }
  }

  lemma DeleteBackToBackIsAtomic(sys: Sys, c: nat, user: Id, id: nat)
    requires c !in sys.calls
    ensures var end := Next(Next(sys, SelectOwn(c, user, id)), Update(c));
      end.db == Step(sys.db, RevokeOne(user, id)) && end.calls == sys.calls
  {
    if Owned(sys.db, user, id) {
      assert sys.calls[c := Deleting(id)] - {c} == sys.calls;
    }
  }
}
