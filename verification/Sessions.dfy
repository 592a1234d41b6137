/** services/kova-auth/src/tokens.rs and services/kova-auth/src/handlers/device.rs: refresh
    tokens, their rotation and the ways to revoke them. Here each operation is one step;
    module SessionStatements splits them into the statements they are made of. */
module Sessions {
  import opened Common

  /** Thirty days, in seconds. */
  const REFRESH_TTL_SECS: int := 2_592_000

  /** One row of the sessions table; its position in the table is its id. The refresh token
      stands for its selector and its hash. */
  datatype Session = Session(user: Id, token: string, jti: string, expiresAt: int, revoked: bool)

  /** Not stored by the service: the login a session goes back to, and the session it
      replaced. */
  datatype Origin = Origin(login: nat, parent: Option<nat>)

  datatype Db = Db(sessions: seq<Session>, lineage: seq<Origin>, now: int)

  // ---- Statements -----------------------------------------------------------

  /** SELECT ... WHERE token_selector = ? AND expires_at > NOW() LIMIT 1. */
  function Lookup(db: Db, token: string): (i: Option<nat>)
    ensures i.Some? ==> i.value < |db.sessions| && Selectable(db, i.value, token)
    ensures i.None? ==> forall k :: 0 <= k < |db.sessions| ==> !Selectable(db, k, token)
    decreases |db.sessions|
  {
    if |db.sessions| == 0 then None
    else
      var rest := Db(db.sessions[..|db.sessions| - 1], db.lineage, db.now);
      if Lookup(rest, token).Some? then Lookup(rest, token)
      else if Selectable(db, |db.sessions| - 1, token) then Some(|db.sessions| - 1)
      else
        assert forall k :: 0 <= k < |rest.sessions| ==> Selectable(db, k, token) == Selectable(rest, k, token);
        None
  }

  predicate Selectable(db: Db, i: nat, token: string)
    requires i < |db.sessions|
  {
    db.sessions[i].token == token && db.sessions[i].expiresAt > db.now
  }

  /** UPDATE sessions SET revoked_at = NOW() WHERE id = ?. */
  function Revoke(ss: seq<Session>, i: nat): (ss': seq<Session>)
    requires i < |ss|
    ensures |ss'| == |ss|
  {
    ss[i := ss[i].(revoked := true)]
  }

  /** UPDATE sessions SET revoked_at = NOW() WHERE user_id = ? AND revoked_at IS NULL. */
  function RevokeUser(ss: seq<Session>, user: Id): (ss': seq<Session>)
    ensures |ss'| == |ss|
    ensures forall i :: 0 <= i < |ss| ==> ss'[i] == if ss[i].user == user then ss[i].(revoked := true) else ss[i]
  {
    if |ss| == 0 then []
    else
      var last := ss[|ss| - 1];
      RevokeUser(ss[..|ss| - 1], user) + [if last.user == user then last.(revoked := true) else last]
  }

  /** UPDATE sessions SET revoked_at = NOW() WHERE access_token_jti = ? AND user_id = ?
      AND revoked_at IS NULL. */
  function RevokeJti(ss: seq<Session>, user: Id, jti: string): (ss': seq<Session>)
    ensures |ss'| == |ss|
    ensures forall i :: 0 <= i < |ss| ==>
      ss'[i] == if ss[i].user == user && ss[i].jti == jti then ss[i].(revoked := true) else ss[i]
  {
    if |ss| == 0 then []
    else
      var last := ss[|ss| - 1];
      RevokeJti(ss[..|ss| - 1], user, jti)
      + [if last.user == user && last.jti == jti then last.(revoked := true) else last]
  }

  /** INSERT INTO sessions, as issue_token_pair does it. */
  function Insert(db: Db, user: Id, token: string, jti: string, parent: Option<nat>): Db {
    var login := if parent.Some? && parent.value < |db.lineage| then db.lineage[parent.value].login else |db.sessions|;
    db.(sessions := db.sessions + [Session(user, token, jti, db.now + REFRESH_TTL_SECS, false)],
        lineage := db.lineage + [Origin(login, parent)])
  }

  /** A 32-byte random token has not been drawn before. */
  predicate Unused(db: Db, token: string) {
    forall i :: 0 <= i < |db.sessions| ==> db.sessions[i].token != token
  }

  // ---- Operations -----------------------------------------------------------

  datatype Event =
    | Login(user: Id, token: string, jti: string)
    | Rotate(token: string, newToken: string, newJti: string)
    | RevokeOne(user: Id, id: nat)
    | RevokeAll(user: Id)
    | Logout(user: Id, jti: string)
    | Wait(seconds: nat)

  datatype Outcome = Done | Issued(id: nat) | SessionNotFound | RefreshTokenReuse | DatabaseError

  /** Whether a session is one its user may revoke. */
  predicate Owned(db: Db, user: Id, id: nat) {
    id < |db.sessions| && db.sessions[id].user == user && !db.sessions[id].revoked
  }

  function Step(db: Db, e: Event): Db {
    match e
    case Login(user, token, jti) => Insert(db, user, token, jti, None)
    case Rotate(token, newToken, newJti) =>
      var row := Lookup(db, token);
      if row.None? then db
      else
        var s := db.sessions[row.value];
        if s.revoked then db.(sessions := RevokeUser(db.sessions, s.user))
        else Insert(db.(sessions := Revoke(db.sessions, row.value)), s.user, newToken, newJti, row)
    case RevokeOne(user, id) =>
      if Owned(db, user, id) then db.(sessions := Revoke(db.sessions, id)) else db
    case RevokeAll(user) => db.(sessions := RevokeUser(db.sessions, user))
    case Logout(user, jti) => db.(sessions := RevokeJti(db.sessions, user, jti))
    case Wait(seconds) => db.(now := db.now + seconds)
  }

  function Reply(db: Db, e: Event): Outcome {
    match e
    case Login(_, _, _) => Issued(|db.sessions|)
    case Rotate(token, _, _) =>
      var row := Lookup(db, token);
      if row.None? then SessionNotFound
      else if db.sessions[row.value].revoked then RefreshTokenReuse
      else Issued(|db.sessions|)
    case RevokeOne(user, id) => if Owned(db, user, id) then Done else SessionNotFound
    case _ => Done
  }

  ghost predicate Drawn(db: Db, e: Event) {
    match e
    case Login(_, token, _) => Unused(db, token)
    case Rotate(_, newToken, _) => Unused(db, newToken)
    case _ => true
  }

  const EMPTY: Db := Db([], [], 0)

  /** A run: the databases between its operations. Every token drawn is new. */
  ghost predicate Run(dbs: seq<Db>, evs: seq<Event>) {
    && |dbs| == |evs| + 1 && dbs[0] == EMPTY
    && forall i :: 0 <= i < |evs| ==> Drawn(dbs[i], evs[i]) && dbs[i + 1] == Step(dbs[i], evs[i])
  }

  // ---- What every operation keeps -------------------------------------------

  ghost predicate TokensDistinct(ss: seq<Session>) {
    forall i, j :: 0 <= i < j < |ss| ==> ss[i].token != ss[j].token
  }

  /** A session without a predecessor is its own login; one that replaced another has its
      user and login, and the one it replaced is revoked. */
  ghost predicate ChainsOk(ss: seq<Session>, lineage: seq<Origin>) {
    && |lineage| == |ss|
    && forall i :: 0 <= i < |ss| ==>
         match lineage[i].parent
         case None => lineage[i].login == i
         case Some(p) => p < i && ss[p].revoked && ss[p].user == ss[i].user && lineage[p].login == lineage[i].login
  }

  /** No session was replaced twice. */
  ghost predicate ReplacedOnce(lineage: seq<Origin>) {
    forall i, j :: 0 <= i < j < |lineage| && lineage[i].parent.Some? ==> lineage[i].parent != lineage[j].parent
  }

  /** In the chain of sessions of one login only the last one may be live. */
  ghost predicate TipsOnly(ss: seq<Session>, lineage: seq<Origin>) {
    && |lineage| == |ss|
    && (forall i :: 0 <= i < |ss| ==> lineage[i].login <= i)
    && (forall i, j :: 0 <= i < j < |ss| && lineage[i].login == lineage[j].login ==> ss[i].revoked)
  }

  ghost predicate Inv(db: Db) {
    && TokensDistinct(db.sessions) && ChainsOk(db.sessions, db.lineage)
    && ReplacedOnce(db.lineage) && TipsOnly(db.sessions, db.lineage)
  }

  /** The same rows, some of them now revoked. */
  ghost predicate MoreRevoked(ss: seq<Session>, ss': seq<Session>) {
    |ss| <= |ss'| && forall i :: 0 <= i < |ss| ==> ss'[i] == ss[i] || ss'[i] == ss[i].(revoked := true)
  }

  /** A later database: rows were added or revoked, and time has passed. */
  ghost predicate Later(db: Db, db': Db) {
    MoreRevoked(db.sessions, db'.sessions) && db.now <= db'.now
  }

  lemma RevokingKeepsInv(db: Db, ss': seq<Session>)
    requires Inv(db) && MoreRevoked(db.sessions, ss') && |ss'| == |db.sessions|
    ensures Inv(db.(sessions := ss'))
  {
  }

  lemma ChainsPush(ss: seq<Session>, lineage: seq<Origin>, s: Session, o: Origin)
    requires ChainsOk(ss, lineage)
    requires match o.parent
             case None => o.login == |ss|
             case Some(p) => p < |ss| && ss[p].revoked && ss[p].user == s.user && lineage[p].login == o.login
    ensures ChainsOk(ss + [s], lineage + [o])
  {
  }

  lemma TipsPush(ss: seq<Session>, lineage: seq<Origin>, s: Session, o: Origin)
    requires TipsOnly(ss, lineage) && o.login <= |ss|
    requires forall i :: 0 <= i < |ss| && lineage[i].login == o.login ==> ss[i].revoked
    ensures TipsOnly(ss + [s], lineage + [o])
  {
  }

  /** A new row continues no chain, or one whose sessions are all revoked and whose last
      one has not been replaced yet. */
  lemma InsertKeepsInv(db: Db, user: Id, token: string, jti: string, parent: Option<nat>)
    requires Inv(db) && Unused(db, token)
    requires match parent
             case None => true
             case Some(p) =>
               && p < |db.sessions| && db.sessions[p].user == user
               && (forall i :: 0 <= i < |db.sessions| && db.lineage[i].login == db.lineage[p].login ==>
                     db.sessions[i].revoked)
               && (forall i :: 0 <= i < |db.sessions| ==> db.lineage[i].parent != parent)
    ensures Inv(Insert(db, user, token, jti, parent))
  {
    var db' := Insert(db, user, token, jti, parent);
    var n := |db.sessions|;
    ChainsPush(db.sessions, db.lineage, db'.sessions[n], db'.lineage[n]);
    TipsPush(db.sessions, db.lineage, db'.sessions[n], db'.lineage[n]);
  }

  /** A chain grows at its live tip only. */
  lemma RotationKeepsInv(db: Db, p: nat, token: string, jti: string)
    requires Inv(db) && Unused(db, token) && p < |db.sessions| && !db.sessions[p].revoked
    ensures Inv(Insert(db.(sessions := Revoke(db.sessions, p)), db.sessions[p].user, token, jti, Some(p)))
  {
    var db' := db.(sessions := Revoke(db.sessions, p));
    RevokingKeepsInv(db, db'.sessions);
    InsertKeepsInv(db', db.sessions[p].user, token, jti, Some(p));
  }

  lemma StepKeepsInv(db: Db, e: Event)
    requires Inv(db) && Drawn(db, e)
    ensures Inv(Step(db, e)) && Later(db, Step(db, e))
  {
    match e
    case Login(user, token, jti) => InsertKeepsInv(db, user, token, jti, None);
    case Rotate(token, newToken, newJti) =>
      var row := Lookup(db, token);
      if row.Some? {
        if db.sessions[row.value].revoked {
          RevokingKeepsInv(db, Step(db, e).sessions);
        } else {
          RotationKeepsInv(db, row.value, newToken, newJti);
        }
      }
    case Wait(_) =>
    case _ => RevokingKeepsInv(db, Step(db, e).sessions);
  }

  lemma {:induction false} RunKeepsInv(dbs: seq<Db>, evs: seq<Event>, i: nat)
    requires Run(dbs, evs) && i <= |evs|
    ensures Inv(dbs[i])
  {
    if i > 0 {
      RunKeepsInv(dbs, evs, i - 1);
      StepKeepsInv(dbs[i - 1], evs[i - 1]);
    }
  }

  /** Of the sessions that go back to one login at most one is live, it is the newest of
      them, and nothing has replaced it. */
  ghost predicate OneLivePerLogin(db: Db) {
    && |db.lineage| == |db.sessions|
    && forall i, j ::
         0 <= i < |db.sessions| && 0 <= j < |db.sessions| && db.lineage[i].login == db.lineage[j].login
         && !db.sessions[i].revoked ==>
           j <= i && (j == i || db.sessions[j].revoked) && db.lineage[j].parent != Some(i)
  }

  lemma OneLiveSessionPerLogin(dbs: seq<Db>, evs: seq<Event>)
    requires Run(dbs, evs)
    ensures OneLivePerLogin(dbs[|evs|])
  {
    var db := dbs[|evs|];
    RunKeepsInv(dbs, evs, |evs|);
    TipIsLatest(db);
  }

  lemma TipIsLatest(db: Db)
    requires Inv(db)
    ensures OneLivePerLogin(db)
  {
  }

  lemma LaterTransitive(a: Db, b: Db, c: Db)
    requires Later(a, b) && Later(b, c)
    ensures Later(a, c)
  {
  }

  lemma LastStep(dbs: seq<Db>, evs: seq<Event>, i: nat)
    requires Run(dbs, evs) && i < |evs|
    ensures Later(dbs[i], dbs[i + 1])
  {
    RunKeepsInv(dbs, evs, i);
    StepKeepsInv(dbs[i], evs[i]);
  }

  /** Nothing a run does makes a revoked session live again. */
  lemma {:induction false} RevocationIsPermanent(dbs: seq<Db>, evs: seq<Event>, i: nat, j: nat)
    requires Run(dbs, evs) && i <= j <= |evs|
    ensures Later(dbs[i], dbs[j])
    decreases j
  {
    if i < j {
      RevocationIsPermanent(dbs, evs, i, j - 1);
      LastStep(dbs, evs, j - 1);
      LaterTransitive(dbs[i], dbs[j - 1], dbs[j]);
    }
  }

  /** Rotating a session revokes it. */
  lemma RotationRevokes(db: Db, e: Event)
    requires e.Rotate? && Reply(db, e).Issued?
    ensures var p := Lookup(db, e.token);
      && p.Some? && p.value < |Step(db, e).sessions|
      && Step(db, e).sessions[p.value] == db.sessions[p.value].(revoked := true)
  {
  }

  /** What a token finds once its session is revoked. */
  lemma RevokedToken(db: Db, e: Event, p: nat)
    requires TokensDistinct(db.sessions) && e.Rotate? && p < |db.sessions|
    requires db.sessions[p].token == e.token && db.sessions[p].revoked
    ensures if db.sessions[p].expiresAt > db.now
            then Lookup(db, e.token) == Some(p) && Reply(db, e) == RefreshTokenReuse
            else Reply(db, e) == SessionNotFound && Step(db, e) == db
  {
    assert forall k :: 0 <= k < |db.sessions| && k != p ==> !Selectable(db, k, e.token);
    assert Selectable(db, p, e.token) <==> db.sessions[p].expiresAt > db.now;
  }

  /** A session revoked by the i-th operation is unchanged ever after. */
  lemma StaysRevoked(dbs: seq<Db>, evs: seq<Event>, i: nat, j: nat, p: nat)
    requires Run(dbs, evs) && i <= j <= |evs| && p < |dbs[i].sessions| && dbs[i].sessions[p].revoked
    ensures p < |dbs[j].sessions| && dbs[j].sessions[p] == dbs[i].sessions[p]
    ensures Inv(dbs[j])
  {
    RevocationIsPermanent(dbs, evs, i, j);
    RunKeepsInv(dbs, evs, j);
  }

  /** Over a whole run a token is exchanged for a new pair at most once. */
  lemma TokenRotatesOnce(dbs: seq<Db>, evs: seq<Event>, i: nat, j: nat)
    requires Run(dbs, evs) && i < j < |evs| && evs[i].Rotate? && evs[j].Rotate? && evs[i].token == evs[j].token
    requires Reply(dbs[i], evs[i]).Issued?
    ensures !Reply(dbs[j], evs[j]).Issued?
  {
    var p := Lookup(dbs[i], evs[i].token).value;
    LastStep(dbs, evs, i);
    RotationRevokes(dbs[i], evs[i]);
    StaysRevoked(dbs, evs, i + 1, j, p);
    RevokedToken(dbs[j], evs[j], p);
  }

  // ---- Live sessions of a user ----------------------------------------------

  function LiveCount(ss: seq<Session>, user: Id): nat {
    if |ss| == 0 then 0
    else
      var last := ss[|ss| - 1];
      LiveCount(ss[..|ss| - 1], user) + (if last.user == user && !last.revoked then 1 else 0)
  }

  lemma {:induction false} RevokeLowers(ss: seq<Session>, p: nat, user: Id)
    requires p < |ss| && !ss[p].revoked
    ensures LiveCount(Revoke(ss, p), user) == LiveCount(ss, user) - (if ss[p].user == user then 1 else 0)
    decreases |ss|
  {
    var n := |ss| - 1;
    if p < n {
      RevokeLowers(ss[..n], p, user);
      assert Revoke(ss, p)[..n] == Revoke(ss[..n], p);
    } else {
      assert Revoke(ss, p)[..n] == ss[..n];
    }
  }

  lemma {:induction false} RevokingNeverRaises(ss: seq<Session>, ss': seq<Session>, user: Id)
    requires MoreRevoked(ss, ss') && |ss'| == |ss|
    ensures LiveCount(ss', user) <= LiveCount(ss, user)
    ensures (forall i :: 0 <= i < |ss| && ss[i].user == user ==> ss'[i] == ss[i]) ==>
      LiveCount(ss', user) == LiveCount(ss, user)
    ensures (forall i :: 0 <= i < |ss| && ss[i].user == user ==> ss'[i].revoked) ==> LiveCount(ss', user) == 0
    decreases |ss|
  {
    if |ss| > 0 {
      RevokingNeverRaises(ss[..|ss| - 1], ss'[..|ss| - 1], user);
    }
  }

  lemma InsertRaises(db: Db, owner: Id, token: string, jti: string, parent: Option<nat>, user: Id)
    ensures LiveCount(Insert(db, owner, token, jti, parent).sessions, user)
         == LiveCount(db.sessions, user) + (if owner == user then 1 else 0)
  {
    var ss' := Insert(db, owner, token, jti, parent).sessions;
    assert ss'[..|ss'| - 1] == db.sessions;
  }

  /** Rotating trades one live session for another; when it fails, no user has more live
      sessions than before. */
  lemma RotationKeepsLiveCount(db: Db, e: Event, user: Id)
    requires e.Rotate?
    ensures Reply(db, e).Issued? ==> LiveCount(Step(db, e).sessions, user) == LiveCount(db.sessions, user)
    ensures !Reply(db, e).Issued? ==> LiveCount(Step(db, e).sessions, user) <= LiveCount(db.sessions, user)
  {
    var row := Lookup(db, e.token);
    if row.Some? {
      var s := db.sessions[row.value];
      if s.revoked {
        RevokingNeverRaises(db.sessions, RevokeUser(db.sessions, s.user), user);
      } else {
        RevokeLowers(db.sessions, row.value, user);
        InsertRaises(db.(sessions := Revoke(db.sessions, row.value)), s.user, e.newToken, e.newJti, row, user);
      }
    }
  }

  /** Presenting a token whose session was revoked and has not expired is taken for theft:
      its user is left without a live session, everyone else is left alone. */
  lemma ReuseLeavesNone(db: Db, e: Event, p: nat, user: Id)
    requires TokensDistinct(db.sessions) && e.Rotate? && p < |db.sessions|
    requires Selectable(db, p, e.token) && db.sessions[p].revoked
    ensures Reply(db, e) == RefreshTokenReuse
    ensures LiveCount(Step(db, e).sessions, user)
         == if user == db.sessions[p].user then 0 else LiveCount(db.sessions, user)
  {
    RevokedToken(db, e, p);
    RevokeUserCount(db.sessions, db.sessions[p].user, user);
  }

  lemma RevokeUserCount(ss: seq<Session>, owner: Id, user: Id)
    ensures LiveCount(RevokeUser(ss, owner), user) == if user == owner then 0 else LiveCount(ss, user)
  {
    RevokingNeverRaises(ss, RevokeUser(ss, owner), user);
  }

  /** So over a run: once a token has been rotated, presenting it again before it expires
      leaves its user with nothing, unless the user was already signed out everywhere. */
  lemma RotatedTokenIsATripwire(dbs: seq<Db>, evs: seq<Event>, i: nat, j: nat)
    requires Run(dbs, evs) && i < j < |evs| && evs[i].Rotate? && evs[j].Rotate? && evs[i].token == evs[j].token
    requires Reply(dbs[i], evs[i]).Issued?
    ensures var p := Lookup(dbs[i], evs[i].token).value;
      var s := dbs[i].sessions[p];
      if dbs[j].now < s.expiresAt
      then Reply(dbs[j], evs[j]) == RefreshTokenReuse && LiveCount(dbs[j + 1].sessions, s.user) == 0
      else Reply(dbs[j], evs[j]) == SessionNotFound && dbs[j + 1] == dbs[j]
  {
    var p := Lookup(dbs[i], evs[i].token).value;
    LastStep(dbs, evs, i);
    RotationRevokes(dbs[i], evs[i]);
    StaysRevoked(dbs, evs, i + 1, j, p);
    LastStep(dbs, evs, j);
    RevokedToken(dbs[j], evs[j], p);
    if dbs[j].now < dbs[j].sessions[p].expiresAt {
      ReuseLeavesNone(dbs[j], evs[j], p, dbs[j].sessions[p].user);
    }
  }
}
