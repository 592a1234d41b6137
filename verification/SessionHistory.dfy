/** What becomes of a refresh token, said over what happened and when: how long it can be
    exchanged, and exactly what ends its session. First for whole operations, then for
    interleaved statements. */
module SessionHistory {
  import opened Common
  import opened Sessions
  import St = SessionStatements

  // ---- A new session --------------------------------------------------------

  /** The row that issuing a pair adds: live, and expiring thirty days later. */
  predicate FreshRow(s: Session, user: Id, token: string, jti: string, now: int) {
    s.user == user && s.token == token && s.jti == jti && s.expiresAt == now + 2_592_000 && !s.revoked
  }

  /** A login always issues a pair. An issued pair is a new row, after all others, with the
      token and the token id drawn for it: for the user who logs in, or for the user of the
      session whose token was presented, and that session was live. */
  lemma IssuedRow(db: Db, e: Event)
    requires Reply(db, e).Issued? || e.Login?
    ensures var n := |db.sessions|;
      && Reply(db, e) == Issued(n) && |Step(db, e).sessions| == n + 1
      && match e
         case Login(user, token, jti) => FreshRow(Step(db, e).sessions[n], user, token, jti, db.now)
         case Rotate(token, newToken, newJti) =>
           exists p: nat :: p < n && db.sessions[p].token == token && !db.sessions[p].revoked
             && db.now < db.sessions[p].expiresAt
             && FreshRow(Step(db, e).sessions[n], db.sessions[p].user, newToken, newJti, db.now)
         case _ => false
  {
  }

  /** The clock moves by what was waited, and by nothing else. */
  lemma {:induction false} ClockIsWaiting(dbs: seq<Db>, evs: seq<Event>, i: nat)
    requires Run(dbs, evs) && i <= |evs|
    ensures dbs[i].now == Waited(evs, i)
  {
    if i > 0 {
      ClockIsWaiting(dbs, evs, i - 1);
      assert dbs[i] == Step(dbs[i - 1], evs[i - 1]);
    }
  }

  function Waited(evs: seq<Event>, i: nat): nat
    requires i <= |evs|
  {
    if i == 0 then 0 else Waited(evs, i - 1) + (if evs[i - 1].Wait? then evs[i - 1].seconds else 0)
  }

  // ---- What ends a session --------------------------------------------------

  /** The operation ends session n: its token is presented before it expires; the user's
      token of another session is, that had ended before; the user deletes it, or all of them;
      or the user logs out with its token id. */
  ghost predicate Ends(db: Db, e: Event, n: nat)
    requires n < |db.sessions|
  {
    var s := db.sessions[n];
    match e
    case Rotate(token, _, _) => (s.token == token && db.now < s.expiresAt) || Reused(db, token, s.user)
    case RevokeOne(user, id) => user == s.user && id == n
    case RevokeAll(user) => user == s.user
    case Logout(user, jti) => user == s.user && jti == s.jti
    case _ => false
  }

  /** An unexpired token of a session of this user that has ended. */
  ghost predicate Reused(db: Db, token: string, user: Id) {
    exists r: nat :: r < |db.sessions| && db.sessions[r].token == token && db.sessions[r].user == user
      && db.sessions[r].revoked && db.now < db.sessions[r].expiresAt
  }

  /** One operation: a row changes in its revocation only, and only if the operation ends it. */
  lemma StepEnds(db: Db, e: Event, n: nat)
    requires TokensDistinct(db.sessions) && n < |db.sessions|
    ensures n < |Step(db, e).sessions|
    ensures Step(db, e).sessions[n] == db.sessions[n].(revoked := db.sessions[n].revoked || Ends(db, e, n))
  {
    if e.Rotate? {
      RotateEnds(db, e, n);
    }
  }

  lemma RotateEnds(db: Db, e: Event, n: nat)
    requires TokensDistinct(db.sessions) && n < |db.sessions| && e.Rotate?
    ensures n < |Step(db, e).sessions|
    ensures Step(db, e).sessions[n] == db.sessions[n].(revoked := db.sessions[n].revoked || Ends(db, e, n))
  {
    var row := Lookup(db, e.token);
    if row.Some? {
      var p := row.value;
      assert Selectable(db, p, e.token);
      assert forall k :: 0 <= k < |db.sessions| && db.sessions[k].token == e.token ==> k == p;
      assert Reused(db, e.token, db.sessions[n].user)
        <==> db.sessions[p].revoked && db.sessions[p].user == db.sessions[n].user;
    } else {
      forall k: nat | k < |db.sessions| && db.sessions[k].token == e.token
        ensures db.now >= db.sessions[k].expiresAt
      {
        assert !Selectable(db, k, e.token);
      }
    }
  }

  ghost predicate EndsAt(dbs: seq<Db>, evs: seq<Event>, k: nat, n: nat) {
    k < |evs| && k < |dbs| && n < |dbs[k].sessions| && Ends(dbs[k], evs[k], n)
  }

  ghost predicate EndedBetween(dbs: seq<Db>, evs: seq<Event>, i: nat, j: nat, n: nat) {
    exists k: nat :: i <= k < j && EndsAt(dbs, evs, k, n)
  }

  lemma EndedOneMore(dbs: seq<Db>, evs: seq<Event>, i: nat, j: nat, n: nat)
    requires i <= j
    ensures EndedBetween(dbs, evs, i, j + 1, n) <==> EndedBetween(dbs, evs, i, j, n) || EndsAt(dbs, evs, j, n)
  {
  }

  lemma RevokedOneMore(was: Session, next: Session, last: Session, before: bool, ends: bool)
    requires next == was.(revoked := was.revoked || before) && last == next.(revoked := next.revoked || ends)
    ensures last == was.(revoked := was.revoked || before || ends)
  {
  }

  lemma StepEndsInRun(dbs: seq<Db>, evs: seq<Event>, k: nat, n: nat)
    requires Run(dbs, evs) && k < |evs| && n < |dbs[k].sessions|
    ensures var was := dbs[k].sessions[n];
      && n < |dbs[k + 1].sessions|
      && dbs[k + 1].sessions[n] == was.(revoked := was.revoked || EndsAt(dbs, evs, k, n))
  {
    RunKeepsInv(dbs, evs, k);
    StepEnds(dbs[k], evs[k], n);
  }

  /** In every run: a session is revoked exactly if it was before or one of the operations in
      between ended it; its user, token, token id and expiry never change. */
  lemma {:induction false} RevokedIffEnded(dbs: seq<Db>, evs: seq<Event>, i: nat, j: nat, n: nat)
    requires Run(dbs, evs) && i <= j <= |evs| && n < |dbs[i].sessions|
    ensures n < |dbs[j].sessions|
    ensures var was := dbs[i].sessions[n];
      dbs[j].sessions[n] == was.(revoked := was.revoked || EndedBetween(dbs, evs, i, j, n))
    decreases j
  {
    if i < j {
      var k := j - 1;
      RevokedIffEnded(dbs, evs, i, k, n);
      StepEndsInRun(dbs, evs, k, n);
      EndedOneMore(dbs, evs, i, k, n);
      RevokedOneMore(dbs[i].sessions[n], dbs[k].sessions[n], dbs[k + 1].sessions[n],
                     EndedBetween(dbs, evs, i, k, n), EndsAt(dbs, evs, k, n));
    }
  }

  // ---- The life of a token --------------------------------------------------

  /** What presenting the token of a session is answered. */
  lemma PresentedToken(db: Db, e: Event, n: nat)
    requires TokensDistinct(db.sessions) && e.Rotate? && n < |db.sessions| && db.sessions[n].token == e.token
    ensures Reply(db, e) == if db.now >= db.sessions[n].expiresAt then SessionNotFound
                            else if db.sessions[n].revoked then RefreshTokenReuse
                            else Issued(|db.sessions|)
  {
    assert forall k :: 0 <= k < |db.sessions| && k != n ==> !Selectable(db, k, e.token);
    assert Selectable(db, n, e.token) <==> db.now < db.sessions[n].expiresAt;
  }

  /** The token drawn by an operation that issues a pair. */
  function TokenDrawn(e: Event): string {
    match e
    case Login(_, token, _) => token
    case Rotate(_, newToken, _) => newToken
    case _ => ""
  }

  /** In every run: a token issued at time t and presented later is exchanged for a new pair
      exactly if thirty days have not passed and nothing ended its session since. After thirty
      days no session is found, and before that an ended one is a reuse. */
  lemma TokenLifetime(dbs: seq<Db>, evs: seq<Event>, i: nat, j: nat)
    requires Run(dbs, evs) && i < j < |evs| && Reply(dbs[i], evs[i]).Issued?
    requires evs[j].Rotate? && evs[j].token == TokenDrawn(evs[i])
    ensures var n, t := |dbs[i].sessions|, dbs[i].now;
      Reply(dbs[j], evs[j]) == if dbs[j].now >= t + 2_592_000 then SessionNotFound
                               else if EndedBetween(dbs, evs, i + 1, j, n) then RefreshTokenReuse
                               else Issued(|dbs[j].sessions|)
  {
    IssuedRow(dbs[i], evs[i]);
    assert dbs[i + 1] == Step(dbs[i], evs[i]);
    RevokedIffEnded(dbs, evs, i + 1, j, |dbs[i].sessions|);
    RunKeepsInv(dbs, evs, j);
    PresentedToken(dbs[j], evs[j], |dbs[i].sessions|);
  }

  /** A token nobody was issued finds no session and changes nothing. */
  lemma UnknownToken(db: Db, e: Event)
    requires e.Rotate? && Unused(db, e.token)
    ensures Reply(db, e) == SessionNotFound && Step(db, e) == db
  {
  }

  /** Deleting a session succeeds for a live one of the user, and otherwise changes nothing. */
  lemma DeleteAnswers(db: Db, user: Id, id: nat)
    ensures Reply(db, RevokeOne(user, id)) == if id < |db.sessions| && db.sessions[id].user == user
                                                 && !db.sessions[id].revoked
                                              then Done else SessionNotFound
    ensures Reply(db, RevokeOne(user, id)) == SessionNotFound ==> Step(db, RevokeOne(user, id)) == db
  {
  }

  /** Logging out with the token id of a login ends it: its refresh token is never exchanged
      again. */
  lemma LogoutEndsLogin(dbs: seq<Db>, evs: seq<Event>, i: nat, j: nat, k: nat)
    requires Run(dbs, evs) && i < j <= k <= |evs| && evs[i].Login? && j < |evs|
    requires evs[j] == Logout(evs[i].user, evs[i].jti)
    ensures var n := |dbs[i].sessions|;
      && n < |dbs[j + 1].sessions| && dbs[j + 1].sessions[n].revoked
      && (j < k < |evs| && evs[k].Rotate? && evs[k].token == evs[i].token ==> !Reply(dbs[k], evs[k]).Issued?)
  {
    var n := |dbs[i].sessions|;
    IssuedRow(dbs[i], evs[i]);
    assert dbs[i + 1] == Step(dbs[i], evs[i]);
    RevokedIffEnded(dbs, evs, i + 1, j, n);
    assert EndsAt(dbs, evs, j, n);
    RevokedIffEnded(dbs, evs, i + 1, j + 1, n);
    if j < k < |evs| && evs[k].Rotate? && evs[k].token == evs[i].token {
      assert EndedBetween(dbs, evs, i + 1, k, n);
      TokenLifetime(dbs, evs, i, k);
    }
  }

  // ---- Interleaved statements -----------------------------------------------

  /** The INSERT of a rotation, and a login: the row they add. */
  lemma InsertedRow(sys: St.Sys, st: St.Statement)
    ensures var sys', n := St.Next(sys, st), |sys.db.sessions|;
      |sys'.db.sessions| > n ==>
        && |sys'.db.sessions| == n + 1
        && match st
           case Issue(c, token, jti) =>
             && c in sys.calls && sys.calls[c].Revoked?
             && FreshRow(sys'.db.sessions[n], sys.db.sessions[sys.calls[c].session].user, token, jti, sys.db.now)
           case Whole(Login(user, token, jti)) => FreshRow(sys'.db.sessions[n], user, token, jti, sys.db.now)
           case _ => false
  {
  }

  /** The statement ends session n: the UPDATE of a request that read it, or that read an ended
      session of the same user, or an UPDATE that is a whole operation and ends it. */
  ghost predicate StatementEnds(sys: St.Sys, st: St.Statement, n: nat)
    requires n < |sys.db.sessions|
  {
    match st
    case Update(c) =>
      c in sys.calls
      && (match sys.calls[c]
          case Selected(p, wasRevoked) =>
            if wasRevoked then sys.db.sessions[p].user == sys.db.sessions[n].user else p == n
          case Deleting(p) => p == n
          case Revoked(_) => false)
    case Whole(op) => (op.RevokeAll? || op.Logout?) && Ends(sys.db, op, n)
    case _ => false
  }

  lemma NextEnds(sys: St.Sys, st: St.Statement, n: nat)
    requires n < |sys.db.sessions|
    ensures var sys' := St.Next(sys, st);
      && n < |sys'.db.sessions|
      && sys'.db.sessions[n]
         == sys.db.sessions[n].(revoked := sys.db.sessions[n].revoked || StatementEnds(sys, st, n))
  {
  }

  ghost predicate StatementEndsAt(ss: seq<St.Sys>, sts: seq<St.Statement>, k: nat, n: nat) {
    k < |sts| && k < |ss| && n < |ss[k].db.sessions| && StatementEnds(ss[k], sts[k], n)
  }

  ghost predicate StatementEndedBetween(ss: seq<St.Sys>, sts: seq<St.Statement>, i: nat, j: nat, n: nat) {
    exists k: nat :: i <= k < j && StatementEndsAt(ss, sts, k, n)
  }

  lemma StatementEndedOneMore(ss: seq<St.Sys>, sts: seq<St.Statement>, i: nat, j: nat, n: nat)
    requires i <= j
    ensures StatementEndedBetween(ss, sts, i, j + 1, n)
            <==> StatementEndedBetween(ss, sts, i, j, n) || StatementEndsAt(ss, sts, j, n)
  {
  }

  lemma NextEndsInRun(ss: seq<St.Sys>, sts: seq<St.Statement>, k: nat, n: nat)
    requires St.Run(ss, sts) && k < |sts| && n < |ss[k].db.sessions|
    ensures var was := ss[k].db.sessions[n];
      && n < |ss[k + 1].db.sessions|
      && ss[k + 1].db.sessions[n] == was.(revoked := was.revoked || StatementEndsAt(ss, sts, k, n))
  {
    NextEnds(ss[k], sts[k], n);
  }

  /** However statements interleave: a session is revoked exactly if it was before or one of
      the statements in between ended it. */
  lemma {:induction false} RevokedIffStatementEnded(ss: seq<St.Sys>, sts: seq<St.Statement>, i: nat, j: nat, n: nat)
    requires St.Run(ss, sts) && i <= j <= |sts| && n < |ss[i].db.sessions|
    ensures n < |ss[j].db.sessions|
    ensures var was := ss[i].db.sessions[n];
      ss[j].db.sessions[n] == was.(revoked := was.revoked || StatementEndedBetween(ss, sts, i, j, n))
    decreases j
  {
    if i < j {
      var k := j - 1;
      RevokedIffStatementEnded(ss, sts, i, k, n);
      NextEndsInRun(ss, sts, k, n);
      StatementEndedOneMore(ss, sts, i, k, n);
      RevokedOneMore(ss[i].db.sessions[n], ss[k].db.sessions[n], ss[k + 1].db.sessions[n],
                     StatementEndedBetween(ss, sts, i, k, n), StatementEndsAt(ss, sts, k, n));
    }
  }

  /** The SELECT of a request that presents the token of a session, an arbitrary time after
      the session was there: it finds the session exactly if it has not expired, and finds it
      live exactly if it was live and nothing ended it in between. */
  lemma SelectFindsIff(ss: seq<St.Sys>, sts: seq<St.Statement>, i: nat, j: nat, c: nat, n: nat)
    requires St.Run(ss, sts) && Inv(ss[0].db) && i <= j < |sts| && n < |ss[i].db.sessions|
    requires sts[j] == St.Select(c, ss[i].db.sessions[n].token) && c !in ss[j].calls
    ensures var s := ss[i].db.sessions[n];
      if ss[j].db.now >= s.expiresAt then ss[j + 1] == ss[j]
      else St.Finds(ss[j], sts[j], c, n, s.revoked || StatementEndedBetween(ss, sts, i, j, n))
  {
    RevokedIffStatementEnded(ss, sts, i, j, n);
    St.RunKeepsBase(ss, sts, j);
    var db, token := ss[j].db, ss[i].db.sessions[n].token;
    assert ss[j + 1] == St.Next(ss[j], sts[j]);
    assert forall k :: 0 <= k < |db.sessions| && k != n ==> !Selectable(db, k, token);
    assert Selectable(db, n, token) <==> db.now < db.sessions[n].expiresAt;
  }
}
