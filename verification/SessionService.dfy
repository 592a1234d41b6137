/** The session operations as the service runs them: single statements on the table, with
    the statements of other requests in between. Whatever those are, what happened is a run
    of module SessionStatements, so everything proved about its runs holds of it. */
module SessionService {
  import opened Common
  import opened Sessions
  import opened SessionStatements

  /** How a statement ends: a failure may be reported after it took effect. */
  datatype Fate = Fine | FailsBefore | FailsAfter

  datatype Faults = Faults(selectFails: bool, update: Fate, insert: Fate)

  const NO_FAULTS := Faults(false, Fine, Fine)

  /** What the table holds after the UPDATE of a rotation. */
  function Updated(db: Db, read: Db, p: nat, fate: Fate): Db
    requires p < |read.sessions| && p < |db.sessions|
  {
    if fate.FailsBefore? then db
    else if read.sessions[p].revoked then db.(sessions := RevokeUser(db.sessions, read.sessions[p].user))
    else db.(sessions := Revoke(db.sessions, p))
  }

  // ---- Runs -----------------------------------------------------------------

  ghost function Final(sys: Sys, sts: seq<Statement>): Sys {
    if |sts| == 0 then sys else Next(Final(sys, sts[..|sts| - 1]), sts[|sts| - 1])
  }

  lemma FinalPush(sys: Sys, sts: seq<Statement>, st: Statement)
    ensures Final(sys, sts + [st]) == Next(Final(sys, sts), st)
  {
    assert (sts + [st])[..|sts|] == sts;
  }

  lemma {:induction false} FinalConcat(sys: Sys, a: seq<Statement>, b: seq<Statement>)
    ensures Final(sys, a + b) == Final(Final(sys, a), b)
    decreases |b|
  {
    if |b| == 0 {
      assert a + b == a;
    } else {
      FinalConcat(sys, a, b[..|b| - 1]);
      assert (a + b)[..|a + b| - 1] == a + b[..|b| - 1];
    }
  }

  /** A system with no call under way and any statements from there on make a run. */
  lemma {:induction false} FinalIsRun(sys: Sys, sts: seq<Statement>) returns (ss: seq<Sys>)
    requires sys.calls == map[]
    ensures SessionStatements.Run(ss, sts) && ss[0] == sys && ss[|sts|] == Final(sys, sts)
    decreases |sts|
  {
    if |sts| == 0 {
      ss := [sys];
    } else {
      var n := |sts| - 1;
      ss := FinalIsRun(sys, sts[..n]);
      FinalPush(sys, sts[..n], sts[n]);
      assert sts[..n] + [sts[n]] == sts;
      ss := RunPush(ss, sts[..n], sts[n], Final(sys, sts));
    }
  }

  lemma RunPush(ss: seq<Sys>, sts: seq<Statement>, st: Statement, last: Sys) returns (ss': seq<Sys>)
    requires SessionStatements.Run(ss, sts) && last == Next(ss[|sts|], st)
    ensures ss' == ss + [last] && SessionStatements.Run(ss', sts + [st])
  {
    ss' := ss + [last];
    var sts' := sts + [st];
    forall i | 0 <= i < |sts'|
      ensures ss'[i + 1] == Next(ss'[i], sts'[i])
    {
      if i < |sts| {
        assert ss'[i + 1] == ss[i + 1] && ss'[i] == ss[i] && sts'[i] == sts[i];
      }
    }
  }

  /** No statement of the script belongs to the given call. */
  predicate Foreign(sts: seq<Statement>, call: nat) {
    forall i :: 0 <= i < |sts| ==> !Names(sts[i], call)
  }

  lemma {:induction false} ForeignKeepsCall(sys: Sys, sts: seq<Statement>, call: nat)
    requires Foreign(sts, call) && call in sys.calls
    ensures call in Final(sys, sts).calls && Final(sys, sts).calls[call] == sys.calls[call]
    decreases |sts|
  {
    if |sts| > 0 {
      ForeignKeepsCall(sys, sts[..|sts| - 1], call);
    }
  }

  lemma {:induction false} FinalLater(sys: Sys, sts: seq<Statement>)
    ensures Later(sys.db, Final(sys, sts).db)
    decreases |sts|
  {
    if |sts| > 0 {
      var before := Final(sys, sts[..|sts| - 1]);
      FinalLater(sys, sts[..|sts| - 1]);
      NextLater(before, sts[|sts| - 1]);
      LaterTransitive(sys.db, before.db, Final(sys, sts).db);
    }
  }

  class SessionDatabase {
    var sessions: seq<Session>
    var now: int
    var calls: map<nat, Call>
    ghost var lineage: seq<Origin>

    ghost predicate Valid()
      reads this
    {
      InRange(Machine(Contents(), calls))
    }

    ghost function Contents(): Db
      reads this
    {
      Db(sessions, lineage, now)
    }

    ghost function State(): Sys
      reads this
      requires Valid()
    {
      Machine(Contents(), calls)
    }

    constructor ()
      ensures Valid() && State() == Machine(EMPTY, map[])
    {
      sessions, now, lineage, calls := [], 0, [], map[];
    }

    /** One statement of one request. */
    method Execute(st: Statement)
      requires Valid()
      modifies this
      ensures Valid() && State() == Next(old(State()), st)
    {
      match st
      case Select(c, token) =>
        var row := Lookup(Db(sessions, [], now), token);
        SameRows(Db(sessions, [], now), Contents(), token);
        if c !in calls && row.Some? {
          calls := calls[c := Selected(row.value, sessions[row.value].revoked)];
        }
      case SelectOwn(c, user, id) =>
        if c !in calls && id < |sessions| && sessions[id].user == user && !sessions[id].revoked {
          calls := calls[c := Deleting(id)];
        }
      case Update(c) => ExecuteUpdate(c);
      case Issue(c, token, jti) =>
        if c in calls && calls[c].Revoked? && Unused(Db(sessions, [], now), token) {
          var p := calls[c].session;
          var _ := IssueTokenPair(sessions[p].user, token, jti, Some(p));
          calls := calls - {c};
        }
      case Whole(op) => ExecuteWhole(op);
      case Crash(c) => calls := calls - {c};
    }

    method ExecuteUpdate(c: nat)
      requires Valid()
      modifies this
      ensures Valid() && State() == Next(old(State()), Update(c))
    {
      if c in calls {
        match calls[c]
        case Selected(p, wasRevoked) =>
          if wasRevoked {
            sessions := RevokeUser(sessions, sessions[p].user);
            calls := calls - {c};
          } else {
            sessions := Revoke(sessions, p);
            calls := calls[c := Revoked(p)];
          }
        case Deleting(p) =>
          sessions := Revoke(sessions, p);
          calls := calls - {c};
        case Revoked(_) =>
      }
    }

    method ExecuteWhole(op: Event)
      requires Valid()
      modifies this
      ensures Valid() && State() == Next(old(State()), Whole(op))
    {
      match op
      case Login(user, token, jti) =>
        if Unused(Db(sessions, [], now), token) {
          var _ := IssueTokenPair(user, token, jti, None);
        }
      case RevokeAll(user) => sessions := RevokeUser(sessions, user);
      case Logout(user, jti) => sessions := RevokeJti(sessions, user, jti);
      case Wait(seconds) => now := now + seconds;
      case _ =>
    }

    method Others(sts: seq<Statement>)
      requires Valid()
      modifies this
      ensures Valid() && State() == Final(old(State()), sts) && Later(old(Contents()), Contents())
    {
      var i := 0;
      while i < |sts|
        invariant 0 <= i <= |sts|
        invariant Valid() && State() == Final(old(State()), sts[..i])
      {
        Execute(sts[i]);
        FinalPush(old(State()), sts[..i], sts[i]);
        assert sts[..i] + [sts[i]] == sts[..i + 1];
        i := i + 1;
      }
      assert sts[..i] == sts;
      FinalLater(old(State()), sts);
    }

    /** issue_token_pair, given the tokens it draws. */
    method IssueTokenPair(user: Id, token: string, jti: string, ghost parent: Option<nat>) returns (id: nat)
      modifies this`sessions, this`lineage
      ensures Contents() == Insert(old(Contents()), user, token, jti, parent) && id == |old(sessions)|
      ensures sessions == old(sessions) + [Session(user, token, jti, now + 2_592_000, false)]
    {
      ghost var was := Contents();
      id := |sessions|;
      var expiresAt := now + REFRESH_TTL_SECS;
      sessions := sessions + [Session(user, token, jti, expiresAt, false)];
      lineage := Insert(was, user, token, jti, parent).lineage;
    }

    /** One statement of this request, added to the trace. */
    method Perform(ghost start: Sys, ghost trace: seq<Statement>, st: Statement) returns (ghost trace': seq<Statement>)
      requires Valid() && State() == Final(start, trace)
      modifies this
      ensures Valid() && State() == Next(old(State()), st)
      ensures trace' == trace + [st] && State() == Final(start, trace')
    {
      Execute(st);
      FinalPush(start, trace, st);
      trace' := trace + [st];
    }

    /** Other requests run for a while; this one stays where it is. */
    method Meanwhile(ghost start: Sys, ghost trace: seq<Statement>, sts: seq<Statement>, call: nat)
        returns (ghost trace': seq<Statement>)
      requires Valid() && State() == Final(start, trace) && Foreign(sts, call) && call in calls
      modifies this
      ensures Valid() && Later(old(Contents()), Contents()) && call in calls && calls[call] == old(calls[call])
      ensures trace' == trace + sts && State() == Final(start, trace')
      ensures sts == [] ==> State() == old(State())
    {
      ForeignKeepsCall(State(), sts, call);
      Others(sts);
      FinalConcat(start, trace, sts);
      trace' := trace + sts;
    }

    /** A failed statement ends the call, whether or not it took effect. */
    method Fail(ghost start: Sys, ghost trace: seq<Statement>, call: nat) returns (ghost trace': seq<Statement>)
      requires Valid() && State() == Final(start, trace)
      modifies this`calls
      ensures Valid() && State() == Final(start, trace')
      ensures Contents() == old(Contents()) && calls == old(calls) - {call}
    {
      calls := calls - {call};
      FinalPush(start, trace, Crash(call));
      trace' := trace + [Crash(call)];
    }

    /** The UPDATE of a rotation that read session p, or its failure. */
    method TakeRow(ghost start: Sys, ghost trace: seq<Statement>, call: nat, ghost read: Db, ghost p: nat, fate: Fate)
        returns (ghost trace': seq<Statement>)
      requires Valid() && State() == Final(start, trace) && call in calls
      requires p < |read.sessions| && Later(read, Contents())
      requires calls[call] == Selected(p, read.sessions[p].revoked)
      modifies this
      ensures Valid() && State() == Final(start, trace') && Contents() == Updated(old(Contents()), read, p, fate)
      ensures if fate.Fine? && !read.sessions[p].revoked then call in calls && calls[call] == Revoked(p)
              else call !in calls
    {
      trace' := trace;
      if !fate.FailsBefore? {
        trace' := Perform(start, trace, Update(call));
      }
      if !fate.Fine? {
        trace' := Fail(start, trace', call);
      }
    }

    /** The INSERT of a rotation that has taken session p, or its failure. */
    method ReplaceRow(ghost start: Sys, ghost trace: seq<Statement>, call: nat, user: Id, newToken: string,
                      newJti: string,
                      fate: Fate)
        returns (id: nat, ghost trace': seq<Statement>)
      requires Valid() && State() == Final(start, trace) && call in calls && calls[call].Revoked?
      requires sessions[calls[call].session].user == user
      modifies this
      ensures Valid() && call !in calls && id == |old(sessions)|
      ensures Unused(old(Contents()), newToken) ==> State() == Final(start, trace')
      ensures Contents() == if fate.FailsBefore? then old(Contents())
                            else Insert(old(Contents()), user, newToken, newJti, Some(old(calls[call].session)))
    {
      id := |sessions|;
      if fate.FailsBefore? {
        trace' := Fail(start, trace, call);
        return;
      }
      FinalPush(start, trace, Issue(call, newToken, newJti));
      trace' := trace + [Issue(call, newToken, newJti)];
      id := IssueTokenPair(user, newToken, newJti, Some(calls[call].session));
      calls := calls - {call};
    }

    /** rotate_refresh_token. `script` says what others do before its UPDATE and before its
        INSERT; `taken` and `issued` are the databases those two statements found. The first
        statement that fails ends the call. If the token drawn is new, the whole is the run
        `trace`. */
    method RotateRefreshToken(call: nat, token: string, newToken: string, newJti: string,
                              script: seq<seq<Statement>>, faults: Faults)
        returns (outcome: Outcome, ghost taken: Db, ghost issued: Db, ghost trace: seq<Statement>)
      requires Valid() && call !in calls && forall i :: 0 <= i < |script| ==> Foreign(script[i], call)
      modifies this
      ensures Valid() && call !in calls
      ensures Unused(issued, newToken) ==> State() == Final(old(State()), trace)
      ensures var read := old(Contents());
        if faults.selectFails then outcome == DatabaseError && Contents() == read
        else
          match Lookup(read, token)
          case None => outcome == SessionNotFound && Contents() == read
          case Some(p) =>
            var s := read.sessions[p];
            && Later(read, taken)
            && var updated := Updated(taken, read, p, faults.update);
              if !faults.update.Fine? then outcome == DatabaseError && Contents() == updated
              else if s.revoked then outcome == RefreshTokenReuse && Contents() == updated
              else
                && Later(updated, issued)
                && outcome == (if faults.insert.Fine? then Issued(|issued.sessions|) else DatabaseError)
                && Contents() == if faults.insert.FailsBefore? then issued
                                 else Insert(issued, s.user, newToken, newJti, Some(p))
      ensures script == [] && faults == NO_FAULTS ==>
        var e := Rotate(token, newToken, newJti);
        Contents() == Step(old(Contents()), e) && outcome == Reply(old(Contents()), e)
    {
      ghost var start := State();
      taken, issued, trace := Contents(), Contents(), [];
      if faults.selectFails {
        return DatabaseError, taken, issued, trace;
      }
      trace := Perform(start, trace, Select(call, token));
      if call !in calls {
        return SessionNotFound, taken, issued, trace;
      }
      var p, wasRevoked := calls[call].session, calls[call].wasRevoked;
      var user := sessions[p].user;
      trace := Meanwhile(start, trace, At(script, 0), call);
      taken := Contents();
      trace := TakeRow(start, trace, call, issued, p, faults.update);
      if !faults.update.Fine? {
        return DatabaseError, taken, issued, trace;
      }
      if wasRevoked {
        return RefreshTokenReuse, taken, issued, trace;
      }
      trace := Meanwhile(start, trace, At(script, 1), call);
      issued := Contents();
      var id;
      id, trace := ReplaceRow(start, trace, call, user, newToken, newJti, faults.insert);
      outcome := if faults.insert.Fine? then Issued(id) else DatabaseError;
    }

    /** DELETE /sessions/:id. */
    method SessionDelete(call: nat, user: Id, id: nat, between: seq<Statement>, faults: Faults)
        returns (outcome: Outcome, ghost taken: Db, ghost trace: seq<Statement>)
      requires Valid() && call !in calls && Foreign(between, call)
      modifies this
      ensures Valid() && call !in calls && State() == Final(old(State()), trace)
      ensures if faults.selectFails then outcome == DatabaseError && Contents() == old(Contents())
              else if !Owned(old(Contents()), user, id) then outcome == SessionNotFound && Contents() == old(Contents())
              else
                && Later(old(Contents()), taken)
                && outcome == (if faults.update.Fine? then Done else DatabaseError)
                && Contents() == if faults.update.FailsBefore? then taken
                                 else taken.(sessions := Revoke(taken.sessions, id))
      ensures between == [] && faults == NO_FAULTS ==>
        var e := RevokeOne(user, id);
        Contents() == Step(old(Contents()), e) && outcome == Reply(old(Contents()), e)
    {
      ghost var start := State();
      taken, trace := Contents(), [];
      if faults.selectFails {
        return DatabaseError, taken, trace;
      }
      trace := Perform(start, trace, SelectOwn(call, user, id));
      if call !in calls {
        return SessionNotFound, taken, trace;
      }
      trace := Meanwhile(start, trace, between, call);
      taken := Contents();
      if faults.update.FailsBefore? {
        trace := Fail(start, trace, call);
        return DatabaseError, taken, trace;
      }
      trace := Perform(start, trace, Update(call));
      outcome := if faults.update.Fine? then Done else DatabaseError;
    }

    /** DELETE /sessions, and POST /logout: one UPDATE each. */
    method SessionsRevokeAll(user: Id)
      requires Valid()
      modifies this`sessions
      ensures Valid() && State() == Next(old(State()), Whole(RevokeAll(user)))
      ensures Contents() == Step(old(Contents()), RevokeAll(user)) && LiveCount(sessions, user) == 0
    {
      RevokeUserCount(sessions, user, user);
      sessions := RevokeUser(sessions, user);
    }

    method Logout(user: Id, jti: string)
      requires Valid()
      modifies this`sessions
      ensures Valid() && State() == Next(old(State()), Whole(Event.Logout(user, jti)))
      ensures Contents() == Step(old(Contents()), Event.Logout(user, jti))
      ensures forall i :: 0 <= i < |sessions| && sessions[i].user == user && sessions[i].jti == jti ==>
        sessions[i].revoked
    {
      sessions := RevokeJti(sessions, user, jti);
    }
  }

  /** The lookup reads the rows and the clock only. */
  lemma {:induction false} SameRows(db: Db, db': Db, token: string)
    requires db.sessions == db'.sessions && db.now == db'.now
    ensures Lookup(db, token) == Lookup(db', token)
    decreases |db.sessions|
  {
    var n := |db.sessions|;
    if n > 0 {
      SameRows(Db(db.sessions[..n - 1], db.lineage, db.now), Db(db'.sessions[..n - 1], db'.lineage, db'.now), token);
    }
  }
}
