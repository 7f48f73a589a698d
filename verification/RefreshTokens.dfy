/** Refresh-token sessions (backend/app/services/auth_service.py): rotation with a current and
    a previous token, a one-minute retry window, revocation and sliding expiry. */
module RefreshTokens {
  import opened Prelude

  type Token = nat
  type SessionId = nat
  type UserId = nat

  /** The stored form of a token. A constructor is injective, as the hash is taken to be. */
  datatype Digest = Sha256(token: Token)

  datatype Session = Session(
    user: UserId,
    family: nat,
    current: Digest,
    previous: Option<Digest>,
    rotatedAt: Option<int>,
    mfaVerified: bool,
    mfaAttempts: nat,
    expiresAt: int,
    revokedAt: Option<int>)

  /** `issued` and `known` are the history of every token handed out and every session id ever used;
      nothing reads them at run time. */
  datatype Store = Store(
    sessions: map<SessionId, Session>, activeUsers: set<UserId>, issued: set<Token>, known: set<SessionId>)

  datatype Config = Config(ttl: nat, mfaMaxAttempts: nat)

  // Clock readings are in microseconds.
  const REUSE_GRACE: int := 60 * 1_000_000
  const RETENTION: int := 30 * 24 * 3600 * 1_000_000

  /** One service call. `drawn` is the token the call draws if it needs one. */
  datatype Call =
    | Create(id: SessionId, user: UserId, family: nat, mfaVerified: bool, drawn: Token)
    | CompleteMfa(id: SessionId, user: UserId, hasSecret: bool, codeOk: bool, drawn: Token)
    | Refresh(raw: Token, drawn: Token)
    | Logout(id: SessionId)
    | RevokeUser(user: UserId)
    | FlagFamily(id: SessionId)
    | PurgeExpired
    | SetActive(user: UserId, active: bool)

  datatype Reply =
    | Issued(id: SessionId, token: Token)
    | Done
    | DuplicateId
    | InvalidToken | Ambiguous | ReuseDetected | Revoked | Expired | AccountInactive
    | MfaInvalid | MfaExpired | MfaTooMany | MfaWrongCode

  predicate Holds(s: Session, d: Digest) { s.current == d || s.previous == Some(d) }

  ghost function Found(st: Store, d: Digest): set<SessionId> {
    set id | id in st.sessions && Holds(st.sessions[id], d)
  }

  function RevokeWhere(sessions: map<SessionId, Session>, ids: set<SessionId>, now: int): map<SessionId, Session> {
    map id | id in sessions :: if id in ids then sessions[id].(revokedAt := Some(now)) else sessions[id]
  }

  /** The rows the clean-up job leaves: those not expired for longer than the retention. */
  function Retained(sessions: map<SessionId, Session>, now: int): map<SessionId, Session> {
    map id | id in sessions && sessions[id].expiresAt >= now - RETENTION :: sessions[id]
  }

  function NewSession(cfg: Config, user: UserId, family: nat, mfaVerified: bool, drawn: Token, now: int): Session {
    Session(user, family, Sha256(drawn), None, None, mfaVerified, 0, now + cfg.ttl, None)
  }

  function Rotated(s: Session, drawn: Token, now: int): Session {
    s.(previous := Some(s.current), current := Sha256(drawn), rotatedAt := Some(now))
  }

  predicate WithinGrace(s: Session, now: int) {
    s.rotatedAt.Some? && now - s.rotatedAt.value <= REUSE_GRACE && s.revokedAt.None?
  }

  function FamilyOf(sessions: map<SessionId, Session>, family: nat): set<SessionId> {
    set id | id in sessions && sessions[id].family == family
  }

  function SessionsOf(sessions: map<SessionId, Session>, user: UserId): set<SessionId> {
    set id | id in sessions && sessions[id].user == user
  }

  function RefreshFound(cfg: Config, st: Store, id: SessionId, raw: Token, drawn: Token, now: int): (Store, Reply)
    requires id in st.sessions
  {
    var s := st.sessions[id];
    var presentedPrevious := s.previous == Some(Sha256(raw));
    if presentedPrevious && !WithinGrace(s, now) then
      (st.(sessions := RevokeWhere(st.sessions, FamilyOf(st.sessions, s.family), now)), ReuseDetected)
    else if s.revokedAt.Some? then (st, Revoked)
    else if s.expiresAt < now then (st, Expired)
    else if s.user !in st.activeUsers then (st, AccountInactive)
    else if presentedPrevious then (st, Issued(id, raw))
    else
      (st.(sessions := st.sessions[id := Rotated(s, drawn, now).(expiresAt := now + cfg.ttl)],
           issued := st.issued + {drawn}),
       Issued(id, drawn))
  }

  function MfaStep(cfg: Config, st: Store, c: Call, now: int): (Store, Reply)
    requires c.CompleteMfa?
  {
    if c.id !in st.sessions then (st, MfaInvalid)
    else
      var s := st.sessions[c.id];
      if s.revokedAt.Some? || s.user != c.user || s.mfaVerified then (st, MfaInvalid)
      else if s.expiresAt < now then (st, MfaExpired)
      else if s.mfaAttempts >= cfg.mfaMaxAttempts then (st, MfaTooMany)
      else if !c.hasSecret then (st, MfaInvalid)
      else if !c.codeOk then
        var failed := s.(mfaAttempts := s.mfaAttempts + 1);
        if failed.mfaAttempts >= cfg.mfaMaxAttempts then
          (st.(sessions := st.sessions[c.id := failed.(revokedAt := Some(now))]), MfaTooMany)
        else (st.(sessions := st.sessions[c.id := failed]), MfaWrongCode)
      else
        (st.(sessions := st.sessions[c.id := Rotated(s, c.drawn, now).(mfaVerified := true)],
             issued := st.issued + {c.drawn}),
         Issued(c.id, c.drawn))
  }

  ghost function Apply(cfg: Config, st: Store, c: Call, now: int): (Store, Reply) {
    match c
    case Create(id, user, family, mfaVerified, drawn) =>
      if id in st.sessions then (st, DuplicateId)
      else
        (st.(sessions := st.sessions[id := NewSession(cfg, user, family, mfaVerified, drawn, now)],
             issued := st.issued + {drawn}, known := st.known + {id}),
         Issued(id, drawn))
    case CompleteMfa(_, _, _, _, _) => MfaStep(cfg, st, c, now)
    case Refresh(raw, drawn) =>
      var found := Found(st, Sha256(raw));
      if found == {} then (st, InvalidToken)
      else if |found| > 1 then (st, Ambiguous)
      else
        var id :| id in found;
        RefreshFound(cfg, st, id, raw, drawn, now)
    case Logout(id) => (st.(sessions := RevokeWhere(st.sessions, {id}, now)), Done)
    case RevokeUser(user) =>
      (st.(sessions := RevokeWhere(st.sessions, SessionsOf(st.sessions, user), now)), Done)
    case FlagFamily(id) =>
      if id !in st.sessions then (st, Done)
      else (st.(sessions := RevokeWhere(st.sessions, FamilyOf(st.sessions, st.sessions[id].family), now)), Done)
    case PurgeExpired => (st.(sessions := Retained(st.sessions, now)), Done)
    case SetActive(user, active) =>
      (st.(activeUsers := if active then st.activeUsers + {user} else st.activeUsers - {user}), Done)
  }

  // ------------------------------------------------------- unambiguous look-up

  /** Stored tokens were issued, a session's two tokens differ, and no two sessions share one. */
  ghost predicate Inv(st: Store) {
    && st.sessions.Keys <= st.known
    && (forall id :: id in st.sessions ==> SessionInv(st.issued, st.sessions[id]))
    && (forall a, b, d :: a in st.sessions && b in st.sessions ==>
          Holds(st.sessions[a], d) && Holds(st.sessions[b], d) ==> a == b)
  }

  ghost predicate SessionInv(issued: set<Token>, s: Session) {
    && s.current.token in issued
    && (s.previous.Some? ==> s.previous.value.token in issued && s.previous.value != s.current)
  }

  /** A call draws a token nobody has seen, and a new session a new id. */
  ghost predicate Fresh(st: Store, c: Call) {
    match c
    case Create(id, _, _, _, drawn) => id !in st.known && drawn !in st.issued
    case CompleteMfa(_, _, _, _, drawn) => drawn !in st.issued
    case Refresh(_, drawn) => drawn !in st.issued
    case _ => true
  }

  lemma Unique(st: Store, raw: Token, id: SessionId)
    requires Inv(st) && id in st.sessions && Holds(st.sessions[id], Sha256(raw))
    ensures Found(st, Sha256(raw)) == {id}
  {
  }

  /** Putting a session with an unseen current token in place keeps every stored token unique. */
  lemma ReplaceKeepsInv(st: Store, id: SessionId, s: Session, drawn: Token)
    requires Inv(st) && drawn !in st.issued
    requires s.current == Sha256(drawn)
    requires s.previous.Some? ==> id in st.sessions && s.previous.value == st.sessions[id].current
    ensures Inv(st.(sessions := st.sessions[id := s], issued := st.issued + {drawn}, known := st.known + {id}))
    ensures id in st.sessions ==> st.known + {id} == st.known
  {
    var next := st.(sessions := st.sessions[id := s], issued := st.issued + {drawn}, known := st.known + {id});
    forall a, b, d | a in next.sessions && b in next.sessions
      ensures Holds(next.sessions[a], d) && Holds(next.sessions[b], d) ==> a == b
    {
      assert a in st.sessions && a != id ==> SessionInv(st.issued, st.sessions[a]);
      assert b in st.sessions && b != id ==> SessionInv(st.issued, st.sessions[b]);
    }
  }

  /** Changes that leave all tokens alone, or drop sessions, keep them unique. */
  lemma SameTokensKeepInv(st: Store, next: Store)
    requires Inv(st) && next.sessions.Keys <= st.sessions.Keys
    requires next.issued == st.issued && next.known == st.known
    requires forall id :: id in next.sessions ==>
               && next.sessions[id].current == st.sessions[id].current
               && next.sessions[id].previous == st.sessions[id].previous
    ensures Inv(next)
  {
    forall a, b, d | a in next.sessions && b in next.sessions
      ensures Holds(next.sessions[a], d) && Holds(next.sessions[b], d) ==> a == b
    {
      assert Holds(next.sessions[a], d) ==> Holds(st.sessions[a], d);
      assert Holds(next.sessions[b], d) ==> Holds(st.sessions[b], d);
    }
  }

  lemma RefreshKeepsInv(cfg: Config, st: Store, id: SessionId, raw: Token, drawn: Token, now: int)
    requires Inv(st) && id in st.sessions && drawn !in st.issued
    ensures Inv(RefreshFound(cfg, st, id, raw, drawn, now).0)
  {
    var s := st.sessions[id];
    var next := RefreshFound(cfg, st, id, raw, drawn, now);
    if next.1 == Issued(id, drawn) && next.0 != st {
      ReplaceKeepsInv(st, id, Rotated(s, drawn, now).(expiresAt := now + cfg.ttl), drawn);
    } else {
      SameTokensKeepInv(st, next.0);
    }
  }

  lemma MfaKeepsInv(cfg: Config, st: Store, c: Call, now: int)
    requires Inv(st) && c.CompleteMfa? && c.drawn !in st.issued
    ensures Inv(MfaStep(cfg, st, c, now).0)
  {
    var next := MfaStep(cfg, st, c, now);
    if next.1.Issued? {
      ReplaceKeepsInv(st, c.id, Rotated(st.sessions[c.id], c.drawn, now).(mfaVerified := true), c.drawn);
    } else {
      SameTokensKeepInv(st, next.0);
    }
  }

  /** Every call keeps stored tokens pairwise distinct, so no look-up ever finds two sessions. */
  lemma CallKeepsInv(cfg: Config, st: Store, c: Call, now: int)
    requires Inv(st) && Fresh(st, c)
    ensures Inv(Apply(cfg, st, c, now).0)
    ensures Apply(cfg, st, c, now).1 != Ambiguous
  {
    match c
    case Create(id, user, family, mfaVerified, drawn) =>
      ReplaceKeepsInv(st, id, NewSession(cfg, user, family, mfaVerified, drawn, now), drawn);
    case CompleteMfa(_, _, _, _, drawn) => MfaKeepsInv(cfg, st, c, now);
    case Refresh(raw, drawn) =>
      var found := Found(st, Sha256(raw));
      if found != {} {
        var id :| id in found;
        Unique(st, raw, id);
        RefreshKeepsInv(cfg, st, id, raw, drawn, now);
      }
    case Logout(_) => SameTokensKeepInv(st, Apply(cfg, st, c, now).0);
    case RevokeUser(_) => SameTokensKeepInv(st, Apply(cfg, st, c, now).0);
    case FlagFamily(_) => SameTokensKeepInv(st, Apply(cfg, st, c, now).0);
    case PurgeExpired => SameTokensKeepInv(st, Apply(cfg, st, c, now).0);
    case SetActive(_, _) => SameTokensKeepInv(st, Apply(cfg, st, c, now).0);
  }

  lemma FewerKeys(a: set<SessionId>, b: set<SessionId>)
    requires a <= b
    ensures |a| <= |b|
  {
    assert b == a + (b - a);
  }

  // -------------------------------------------------------------- the session table

  /** The `user_sessions` table and the service calls that update its rows in place. */
  class SessionTable {
    const config: Config
    var sessions: map<SessionId, Session>
    var activeUsers: set<UserId>
    ghost var issued: set<Token>
    ghost var known: set<SessionId>

    ghost function State(): Store
      reads this
    {
      Store(sessions, activeUsers, issued, known)
    }

    constructor (config: Config)
      ensures this.config == config && State() == Store(map[], {}, {}, {})
    {
      this.config := config;
      sessions, activeUsers, issued, known := map[], {}, {}, {};
    }

    method CreateSession(id: SessionId, user: UserId, family: nat, mfaVerified: bool, drawn: Token, now: int)
      returns (r: Reply)
      requires Inv(State()) && Fresh(State(), Create(id, user, family, mfaVerified, drawn))
      modifies this
      ensures (State(), r) == Apply(config, old(State()), Create(id, user, family, mfaVerified, drawn), now)
    {
      sessions := sessions[id := Session(user, family, Sha256(drawn), None, None, mfaVerified, 0,
                                         now + config.ttl, None)];
      issued, known := issued + {drawn}, known + {id};
      r := Issued(id, drawn);
    }

    /** The row whose current or previous digest is `d`; the query finds at most one. */
    method FindByToken(d: Digest) returns (found: Option<SessionId>)
      requires Inv(State())
      ensures found.None? ==> Found(State(), d) == {}
      ensures found.Some? ==> Found(State(), d) == {found.value}
    {
      var rest := sessions.Keys;
      while rest != {}
        invariant rest <= sessions.Keys
        invariant forall id :: id in sessions && id !in rest ==> !Holds(sessions[id], d)
        decreases |rest|
      {
        var id :| id in rest;
        if Holds(sessions[id], d) {
          Unique(State(), d.token, id);
          return Some(id);
        }
        rest := rest - {id};
      }
      return None;
    }

    method RefreshSession(raw: Token, drawn: Token, now: int) returns (r: Reply)
      requires Inv(State()) && Fresh(State(), Refresh(raw, drawn))
      modifies this
      ensures (State(), r) == Apply(config, old(State()), Refresh(raw, drawn), now)
    {
      var found := FindByToken(Sha256(raw));
      if found.None? {
        return InvalidToken;
      }
      var id := found.value;
      var s := sessions[id];
      var presentedPrevious := s.previous == Some(Sha256(raw));
      if presentedPrevious {
        var withinGrace := s.rotatedAt.Some? && now - s.rotatedAt.value <= REUSE_GRACE && s.revokedAt.None?;
        if !withinGrace {
          sessions := RevokeWhere(sessions, FamilyOf(sessions, s.family), now);
          return ReuseDetected;
        }
      }
      if s.revokedAt.Some? {
        return Revoked;
      }
      if s.expiresAt < now {
        return Expired;
      }
      if s.user !in activeUsers {
        return AccountInactive;
      }
      if presentedPrevious {
        return Issued(id, raw);
      }
      sessions := sessions[id := s.(previous := Some(s.current), current := Sha256(drawn),
                                    rotatedAt := Some(now), expiresAt := now + config.ttl)];
      issued := issued + {drawn};
      return Issued(id, drawn);
    }

    method CompleteMfa(id: SessionId, user: UserId, hasSecret: bool, codeOk: bool, drawn: Token, now: int)
      returns (r: Reply)
      modifies this
      ensures (State(), r) == Apply(config, old(State()), Call.CompleteMfa(id, user, hasSecret, codeOk, drawn), now)
    {
      if id !in sessions {
        return MfaInvalid;
      }
      var s := sessions[id];
      if s.revokedAt.Some? || s.user != user || s.mfaVerified {
        return MfaInvalid;
      }
      if s.expiresAt < now {
        return MfaExpired;
      }
      if s.mfaAttempts >= config.mfaMaxAttempts {
        return MfaTooMany;
      }
      if !hasSecret {
        return MfaInvalid;
      }
      if !codeOk {
        s := s.(mfaAttempts := s.mfaAttempts + 1);
        var exhausted := s.mfaAttempts >= config.mfaMaxAttempts;
        if exhausted {
          s := s.(revokedAt := Some(now));
        }
        sessions := sessions[id := s];
        return if exhausted then MfaTooMany else MfaWrongCode;
      }
      s := s.(mfaVerified := true);
      s := s.(previous := Some(s.current));
      s := s.(current := Sha256(drawn), rotatedAt := Some(now));
      sessions := sessions[id := s];
      issued := issued + {drawn};
      return Issued(id, drawn);
    }

    method FlagFamilyCompromised(id: SessionId, now: int)
      modifies this
      ensures State() == Apply(config, old(State()), Call.FlagFamily(id), now).0
    {
      if id in sessions {
        sessions := RevokeWhere(sessions, FamilyOf(sessions, sessions[id].family), now);
      }
    }

    /** The nightly clean-up; the count is how many rows went. */
    method CleanupExpired(now: int) returns (count: nat)
      modifies this
      ensures State() == Apply(config, old(State()), Call.PurgeExpired, now).0
      ensures count == |old(sessions)| - |sessions|
    {
      var kept := Retained(sessions, now);
      assert kept.Keys <= sessions.Keys;
      FewerKeys(kept.Keys, sessions.Keys);
      count := |sessions| - |kept|;
      sessions := kept;
    }

    method Logout(id: SessionId, now: int)
      modifies this
      ensures State() == Apply(config, old(State()), Call.Logout(id), now).0
    {
      sessions := RevokeWhere(sessions, {id}, now);
    }
  }
}
