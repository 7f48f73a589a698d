/** What each session call does to the session table, and the budget of wrong second-factor codes over
    whole runs (backend/app/services/auth_service.py, backend/app/workers/jobs.py). */
module SessionCalls {
  import opened Prelude
  import opened RefreshTokens
  import opened RefreshRuns

  /** No session but this one changed. */
  ghost predicate OthersSame(st: Store, next: Store, id: SessionId) {
    && (forall x :: x in st.sessions && x != id ==> x in next.sessions && next.sessions[x] == st.sessions[x])
    && (forall x :: x in next.sessions && x != id ==> x in st.sessions)
  }

  // ------------------------------------------------------------------------- the second factor

  /** The call gets as far as looking at the code: an own session that is unrevoked, unverified and not
      expired, with attempts left, of a user who has a secret. */
  ghost predicate CodeIsChecked(cfg: Config, st: Store, c: Call, now: int) {
    && c.CompleteMfa? && c.id in st.sessions && c.hasSecret
    && var s := st.sessions[c.id];
       && s.revokedAt.None? && s.user == c.user && !s.mfaVerified
       && now <= s.expiresAt && s.mfaAttempts < cfg.mfaMaxAttempts
  }

  /** A token is issued exactly when the code is looked at and right. */
  lemma MfaIssuedIff(cfg: Config, st: Store, c: Call, now: int)
    requires c.CompleteMfa?
    ensures Apply(cfg, st, c, now).1.Issued? <==> CodeIsChecked(cfg, st, c, now) && c.codeOk
    ensures Apply(cfg, st, c, now).1.Issued? ==> Apply(cfg, st, c, now).1 == Issued(c.id, c.drawn)
  {
  }

  /** It replaces the session's token, keeps the old one as the previous, marks the session verified and
      leaves its expiry and every other session alone. */
  lemma MfaSuccessEffect(cfg: Config, st: Store, c: Call, now: int)
    requires CodeIsChecked(cfg, st, c, now) && c.codeOk
    ensures var next := Apply(cfg, st, c, now).0;
      && OthersSame(st, next, c.id) && c.id in next.sessions
      && var s, t := st.sessions[c.id], next.sessions[c.id];
         && t.current == Sha256(c.drawn) && t.previous == Some(s.current) && t.rotatedAt == Some(now)
         && t.mfaVerified && t.revokedAt.None? && t.expiresAt == s.expiresAt && t.user == s.user
         && t.family == s.family && t.mfaAttempts == s.mfaAttempts
  {
  }

  /** A wrong code is counted, hands out nothing and changes no token; the last one allowed revokes. */
  lemma MfaFailureEffect(cfg: Config, st: Store, c: Call, now: int)
    requires CodeIsChecked(cfg, st, c, now) && !c.codeOk
    ensures var next, reply := Apply(cfg, st, c, now).0, Apply(cfg, st, c, now).1;
      && OthersSame(st, next, c.id) && c.id in next.sessions && next.issued == st.issued
      && var s, t := st.sessions[c.id], next.sessions[c.id];
         var last := s.mfaAttempts + 1 == cfg.mfaMaxAttempts;
         && t.mfaAttempts == s.mfaAttempts + 1 && t.current == s.current && t.previous == s.previous
         && !t.mfaVerified && t.expiresAt == s.expiresAt
         && t.revokedAt == (if last then Some(now) else None)
         && reply == (if last then MfaTooMany else MfaWrongCode)
  {
  }

  lemma MfaOtherwiseNothing(cfg: Config, st: Store, c: Call, now: int)
    requires c.CompleteMfa? && !CodeIsChecked(cfg, st, c, now)
    ensures Apply(cfg, st, c, now).0 == st && Apply(cfg, st, c, now).1 in {MfaInvalid, MfaExpired, MfaTooMany}
  {
  }

  ghost predicate IsWrongCode(cfg: Config, st: Store, c: Call, now: int, id: SessionId) {
    CodeIsChecked(cfg, st, c, now) && c.id == id && !c.codeOk
  }

  /** The wrong codes a session has taken. */
  ghost function WrongCodes(cfg: Config, recs: seq<Record>, id: SessionId): nat {
    if recs == [] then 0
    else
      var before, r := recs[..|recs| - 1], recs[|recs| - 1];
      WrongCodes(cfg, before, id) + if IsWrongCode(cfg, Run(cfg, before), r.call, r.now, id) then 1 else 0
  }

  /** The stored counter is the number of wrong codes, and reaching the limit has revoked. */
  ghost predicate Budgeted(cfg: Config, st: Store, n: nat, id: SessionId) {
    && n <= cfg.mfaMaxAttempts
    && (id in st.sessions ==> st.sessions[id].mfaAttempts == n)
    && (id in st.sessions && 0 < n == cfg.mfaMaxAttempts ==> st.sessions[id].revokedAt.Some?)
    && (id !in st.known ==> n == 0)
  }

  lemma RefreshKeepsBudget(cfg: Config, st: Store, raw: Token, drawn: Token, now: int, n: nat, id: SessionId)
    requires Inv(st) && drawn !in st.issued && Budgeted(cfg, st, n, id)
    ensures Budgeted(cfg, Apply(cfg, st, Refresh(raw, drawn), now).0, n, id)
  {
    var found := Found(st, Sha256(raw));
    if found != {} {
      var x :| x in found;
      RefreshReply(cfg, st, raw, drawn, now, x);
    }
  }

  lemma MfaKeepsBudget(cfg: Config, st: Store, c: Call, now: int, n: nat, id: SessionId)
    requires Inv(st) && c.CompleteMfa? && Budgeted(cfg, st, n, id)
    ensures Budgeted(cfg, Apply(cfg, st, c, now).0, n + if IsWrongCode(cfg, st, c, now, id) then 1 else 0, id)
  {
    if CodeIsChecked(cfg, st, c, now) {
      if c.codeOk {
        MfaSuccessEffect(cfg, st, c, now);
      } else {
        MfaFailureEffect(cfg, st, c, now);
      }
    }
  }

  lemma CallKeepsBudget(cfg: Config, st: Store, c: Call, now: int, n: nat, id: SessionId)
    requires Inv(st) && Fresh(st, c) && Budgeted(cfg, st, n, id)
    ensures Budgeted(cfg, Apply(cfg, st, c, now).0, n + if IsWrongCode(cfg, st, c, now, id) then 1 else 0, id)
  {
    match c
    case CompleteMfa(_, _, _, _, _) => MfaKeepsBudget(cfg, st, c, now, n, id);
    case Refresh(raw, drawn) => RefreshKeepsBudget(cfg, st, raw, drawn, now, n, id);
    case Create(_, _, _, _, _) =>
    case Logout(_) =>
    case RevokeUser(_) =>
    case FlagFamily(_) =>
    case PurgeExpired =>
    case SetActive(_, _) =>
  }

  /** In every run a session takes at most the allowed number of wrong codes, its counter says how many,
      and the last one has revoked it. */
  lemma {:induction false} WrongCodesBounded(cfg: Config, recs: seq<Record>, id: SessionId)
    requires ValidRun(cfg, recs)
    ensures Budgeted(cfg, Run(cfg, recs), WrongCodes(cfg, recs, id), id)
  {
    if recs != [] {
      var before, r := recs[..|recs| - 1], recs[|recs| - 1];
      TokensStayDistinct(cfg, before);
      WrongCodesBounded(cfg, before, id);
      CallKeepsBudget(cfg, Run(cfg, before), r.call, r.now, WrongCodes(cfg, before, id), id);
    }
  }

  // ------------------------------------------------------------------------- the other calls

  /** A new session holds the drawn token, belongs to the user, is unrevoked and expires a lifetime
      from now. */
  lemma CreateEffect(
    cfg: Config, st: Store, id: SessionId, user: UserId, family: nat, verified: bool, drawn: Token, now: int)
    requires Inv(st) && Fresh(st, Create(id, user, family, verified, drawn))
    ensures var next, reply := Apply(cfg, st, Create(id, user, family, verified, drawn), now).0,
                               Apply(cfg, st, Create(id, user, family, verified, drawn), now).1;
      && reply == Issued(id, drawn) && OthersSame(st, next, id) && id in next.sessions && drawn in next.issued
      && var t := next.sessions[id];
         && t.user == user && t.family == family && t.mfaVerified == verified && t.mfaAttempts == 0
         && t.current == Sha256(drawn) && t.previous.None? && t.revokedAt.None? && t.expiresAt == now + cfg.ttl
  {
  }

  /** Exactly these sessions are revoked now; no session changes otherwise. */
  ghost predicate RevokesExactly(st: Store, next: Store, ids: set<SessionId>, now: int) {
    && next.sessions.Keys == st.sessions.Keys && next.issued == st.issued && next.activeUsers == st.activeUsers
    && forall x :: x in st.sessions ==>
         next.sessions[x] == if x in ids then st.sessions[x].(revokedAt := Some(now)) else st.sessions[x]
  }

  /** Logging out revokes that session, and no token of it is accepted any more. */
  lemma LogoutEffect(cfg: Config, st: Store, id: SessionId, now: int)
    ensures RevokesExactly(st, Apply(cfg, st, Logout(id), now).0, {id}, now)
    ensures forall raw, at :: !Accepts(Apply(cfg, st, Logout(id), now).0, id, raw, at)
  {
  }

  /** Revoking a user revokes all sessions of that user and no other. */
  lemma RevokeUserEffect(cfg: Config, st: Store, user: UserId, now: int)
    ensures RevokesExactly(st, Apply(cfg, st, RevokeUser(user), now).0,
                           (set x | x in st.sessions && st.sessions[x].user == user), now)
  {
  }

  /** A compromised session takes its whole family with it and no other. */
  lemma FlagFamilyEffect(cfg: Config, st: Store, id: SessionId, now: int)
    requires id in st.sessions
    ensures RevokesExactly(st, Apply(cfg, st, FlagFamily(id), now).0,
                           (set x | x in st.sessions && st.sessions[x].family == st.sessions[id].family), now)
  {
  }

  /** The clean-up drops exactly the sessions that expired more than 30 days ago. */
  lemma PurgeEffect(cfg: Config, st: Store, now: int)
    ensures var next := Apply(cfg, st, PurgeExpired, now).0;
      && (forall x :: x in next.sessions <==> x in st.sessions && now - st.sessions[x].expiresAt <= 30 * 86_400_000_000)
      && (forall x :: x in next.sessions ==> next.sessions[x] == st.sessions[x])
      && next.issued == st.issued && next.activeUsers == st.activeUsers
  {
  }

  lemma SetActiveEffect(cfg: Config, st: Store, user: UserId, active: bool, now: int)
    ensures var next := Apply(cfg, st, SetActive(user, active), now).0;
      && next.sessions == st.sessions
      && forall u :: u in next.activeUsers <==> if u == user then active else u in st.activeUsers
  {
  }

  /** The late return of the previous token revokes that session's family and nothing else. */
  lemma ReuseEffect(cfg: Config, st: Store, id: SessionId, raw: Token, drawn: Token, now: int)
    requires Inv(st) && drawn !in st.issued && id in st.sessions && st.sessions[id].previous == Some(Sha256(raw))
    requires Apply(cfg, st, Refresh(raw, drawn), now).1 == ReuseDetected
    ensures RevokesExactly(st, Apply(cfg, st, Refresh(raw, drawn), now).0,
                           (set x | x in st.sessions && st.sessions[x].family == st.sessions[id].family), now)
  {
    RefreshReply(cfg, st, raw, drawn, now, id);
  }

  /** Every refusal of a refresh says why, in this order. */
  lemma RefreshRefusals(cfg: Config, st: Store, id: SessionId, raw: Token, drawn: Token, now: int)
    requires Inv(st) && drawn !in st.issued && id in st.sessions && st.sessions[id].current == Sha256(raw)
    ensures var s, r := st.sessions[id], Apply(cfg, st, Refresh(raw, drawn), now);
      && (s.revokedAt.Some? ==> r == (st, Revoked))
      && (s.revokedAt.None? && s.expiresAt < now ==> r == (st, Expired))
      && (s.revokedAt.None? && now <= s.expiresAt && s.user !in st.activeUsers ==> r == (st, AccountInactive))
  {
    RefreshReply(cfg, st, raw, drawn, now, id);
    assert SessionInv(st.issued, st.sessions[id]);
  }
}
