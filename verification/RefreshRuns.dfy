/** What the refresh tokens guarantee over whole runs of service calls. */
module RefreshRuns {
  import opened Prelude
  import opened RefreshTokens

  datatype Record = Record(call: Call, now: int, reply: Reply)

  ghost function Run(cfg: Config, recs: seq<Record>): Store {
    if recs == [] then Store(map[], {}, {}, {})
    else Apply(cfg, Run(cfg, recs[..|recs| - 1]), recs[|recs| - 1].call, recs[|recs| - 1].now).0
  }

  /** Replies are the service's, drawn tokens are new, and the clock never runs backwards. */
  ghost predicate ValidRun(cfg: Config, recs: seq<Record>) {
    recs == [] ||
    var before, r := recs[..|recs| - 1], recs[|recs| - 1];
    && ValidRun(cfg, before)
    && Fresh(Run(cfg, before), r.call)
    && r.reply == Apply(cfg, Run(cfg, before), r.call, r.now).1
    && (before != [] ==> before[|before| - 1].now <= r.now)
  }

  /** In every run stored tokens stay pairwise distinct and no look-up is ambiguous. */
  lemma {:induction false} TokensStayDistinct(cfg: Config, recs: seq<Record>)
    requires ValidRun(cfg, recs)
    ensures Inv(Run(cfg, recs))
    ensures forall i :: 0 <= i < |recs| ==> recs[i].reply != Ambiguous
  {
    if recs != [] {
      TokensStayDistinct(cfg, recs[..|recs| - 1]);
      CallKeepsInv(cfg, Run(cfg, recs[..|recs| - 1]), recs[|recs| - 1].call, recs[|recs| - 1].now);
    }
  }

  // --------------------------------------------------------- when a refresh succeeds

  /** What makes a stored session accept `raw` at `now`. */
  ghost predicate Accepts(st: Store, id: SessionId, raw: Token, now: int) {
    && id in st.sessions
    && var s := st.sessions[id];
       && s.revokedAt.None? && now <= s.expiresAt && s.user in st.activeUsers
       && (s.current == Sha256(raw) ||
           (s.previous == Some(Sha256(raw)) && s.rotatedAt.Some? && now - s.rotatedAt.value <= 60_000_000))
  }

  lemma RefreshReply(cfg: Config, st: Store, raw: Token, drawn: Token, now: int, id: SessionId)
    requires Inv(st) && id in st.sessions && Holds(st.sessions[id], Sha256(raw))
    ensures Apply(cfg, st, Refresh(raw, drawn), now) == RefreshFound(cfg, st, id, raw, drawn, now)
  {
    Unique(st, raw, id);
    assert |Found(st, Sha256(raw))| == 1;
  }

  /** A refresh succeeds exactly for the current token, or for the immediately previous one
      within a minute of its rotation, on an unrevoked, unexpired session of an active user.
      The current token is replaced; the previous one is handed back. */
  lemma RefreshSucceedsIff(cfg: Config, st: Store, raw: Token, drawn: Token, now: int)
    requires Inv(st) && drawn !in st.issued
    ensures Apply(cfg, st, Refresh(raw, drawn), now).1.Issued? <==> exists id :: Accepts(st, id, raw, now)
    ensures forall id :: Accepts(st, id, raw, now) ==>
              Apply(cfg, st, Refresh(raw, drawn), now).1 ==
              Issued(id, if st.sessions[id].current == Sha256(raw) then drawn else raw)
  {
    var found := Found(st, Sha256(raw));
    if found == {} {
      assert forall id :: Accepts(st, id, raw, now) ==> id in found;
    } else {
      var id :| id in found;
      RefreshReply(cfg, st, raw, drawn, now, id);
      Unique(st, raw, id);
      assert forall x :: Accepts(st, x, raw, now) ==> x in found;
      assert SessionInv(st.issued, st.sessions[id]);
      assert Accepts(st, id, raw, now) <==> RefreshFound(cfg, st, id, raw, drawn, now).1.Issued?;
    }
  }

  /** A rotation keeps the presented token as the previous one and restarts the expiry. */
  lemma RotationEffect(cfg: Config, st: Store, raw: Token, drawn: Token, now: int, id: SessionId)
    requires Inv(st) && drawn !in st.issued && Accepts(st, id, raw, now) && st.sessions[id].current == Sha256(raw)
    ensures var next := Apply(cfg, st, Refresh(raw, drawn), now).0;
            && next.sessions.Keys == st.sessions.Keys
            && (forall x :: x in st.sessions && x != id ==> next.sessions[x] == st.sessions[x])
            && next.sessions[id] == st.sessions[id].(
                 current := Sha256(drawn), previous := Some(Sha256(raw)), rotatedAt := Some(now),
                 expiresAt := now + cfg.ttl)
  {
    RefreshReply(cfg, st, raw, drawn, now, id);
    assert SessionInv(st.issued, st.sessions[id]);
  }

  // ------------------------------------------------------------- reuse and revocation

  ghost predicate IsRevoked(st: Store, id: SessionId) {
    id in st.sessions && st.sessions[id].revokedAt.Some?
  }

  /** The theft response fires exactly when the immediately previous token comes back late, or
      on a session already revoked; it then revokes that session's whole family. */
  lemma ReuseDetectedIff(cfg: Config, st: Store, raw: Token, drawn: Token, now: int)
    requires Inv(st) && drawn !in st.issued
    ensures Apply(cfg, st, Refresh(raw, drawn), now).1 == ReuseDetected <==>
              exists id :: id in st.sessions && st.sessions[id].previous == Some(Sha256(raw)) &&
                           !WithinGrace(st.sessions[id], now)
    ensures Apply(cfg, st, Refresh(raw, drawn), now).1 == ReuseDetected ==>
              forall id, x :: id in st.sessions && st.sessions[id].previous == Some(Sha256(raw)) ==>
                x in FamilyOf(st.sessions, st.sessions[id].family) ==>
                IsRevoked(Apply(cfg, st, Refresh(raw, drawn), now).0, x)
  {
    var found := Found(st, Sha256(raw));
    assert forall id :: id in st.sessions && st.sessions[id].previous == Some(Sha256(raw)) ==> id in found;
    if found != {} {
      var id :| id in found;
      RefreshReply(cfg, st, raw, drawn, now, id);
      Unique(st, raw, id);
    }
  }

  /** Revoked, and perhaps cleaned away since. */
  ghost predicate IsOver(st: Store, id: SessionId) {
    id in st.known && (id in st.sessions ==> st.sessions[id].revokedAt.Some?)
  }

  /** No call un-revokes a session or brings one back. */
  lemma CallKeepsOver(cfg: Config, st: Store, c: Call, now: int, id: SessionId)
    requires Inv(st) && Fresh(st, c) && IsOver(st, id)
    ensures IsOver(Apply(cfg, st, c, now).0, id)
  {
    if c.Refresh? {
      var found := Found(st, Sha256(c.raw));
      if found != {} {
        var x :| x in found;
        RefreshReply(cfg, st, c.raw, c.drawn, now, x);
      }
    }
  }

  lemma {:induction false} OverForGood(cfg: Config, recs: seq<Record>, n: nat, id: SessionId)
    requires ValidRun(cfg, recs) && n <= |recs| && IsOver(Run(cfg, recs[..n]), id)
    ensures IsOver(Run(cfg, recs), id)
    decreases |recs|
  {
    if n == |recs| {
      assert recs[..n] == recs;
    } else {
      var before := recs[..|recs| - 1];
      assert before[..n] == recs[..n];
      OverForGood(cfg, before, n, id);
      TokensStayDistinct(cfg, before);
      CallKeepsOver(cfg, Run(cfg, before), recs[|recs| - 1].call, recs[|recs| - 1].now, id);
    }
  }

  lemma {:induction false} ValidPrefix(cfg: Config, recs: seq<Record>, n: nat)
    requires ValidRun(cfg, recs) && n <= |recs|
    ensures ValidRun(cfg, recs[..n])
    decreases |recs|
  {
    if n == |recs| {
      assert recs[..n] == recs;
    } else {
      ValidPrefix(cfg, recs[..|recs| - 1], n);
      assert recs[..|recs| - 1][..n] == recs[..n];
    }
  }

  /** Revocation is permanent: a session revoked at any point of a run is at its end still revoked or
      cleaned away, and none of its tokens ever refreshes again. */
  lemma RevocationPermanent(cfg: Config, recs: seq<Record>, n: nat, id: SessionId)
    requires ValidRun(cfg, recs) && n <= |recs| && IsRevoked(Run(cfg, recs[..n]), id)
    ensures IsOver(Run(cfg, recs), id)
    ensures forall raw, now :: !Accepts(Run(cfg, recs), id, raw, now)
  {
    ValidPrefix(cfg, recs, n);
    TokensStayDistinct(cfg, recs[..n]);
    OverForGood(cfg, recs, n, id);
  }

  // ------------------------------------------------------------------ stale tokens

  /** Handed out once and no longer stored: two or more rotations old, or of a session cleaned away. */
  ghost predicate Stale(st: Store, tok: Token) {
    tok in st.issued && Found(st, Sha256(tok)) == {}
  }

  /** Every call leaves a stale token stale, and presenting it is answered as an unknown token
      with nothing changed: unlike the immediately previous token it never revokes anything. */
  lemma StaleStaysStale(cfg: Config, st: Store, c: Call, now: int, tok: Token)
    requires Inv(st) && Fresh(st, c) && Stale(st, tok)
    ensures Stale(Apply(cfg, st, c, now).0, tok)
    ensures c.Refresh? && c.raw == tok ==> Apply(cfg, st, c, now) == (st, InvalidToken)
  {
    var d := Sha256(tok);
    assert forall id :: id in st.sessions ==> !Holds(st.sessions[id], d) by {
      assert forall id :: id in st.sessions && Holds(st.sessions[id], d) ==> id in Found(st, d);
    }
    var next := Apply(cfg, st, c, now).0;
    if c.Refresh? && Found(st, Sha256(c.raw)) != {} {
      var x :| x in Found(st, Sha256(c.raw));
      RefreshReply(cfg, st, c.raw, c.drawn, now, x);
    }
    assert forall id :: id in next.sessions ==> !Holds(next.sessions[id], d);
  }

  /** A token two rotations old stays useless and harmless for the rest of the run. */
  lemma {:induction false} StaleForever(cfg: Config, recs: seq<Record>, n: nat, tok: Token)
    requires ValidRun(cfg, recs) && n <= |recs| && Stale(Run(cfg, recs[..n]), tok)
    ensures Stale(Run(cfg, recs), tok)
    ensures forall id, now :: !Accepts(Run(cfg, recs), id, tok, now)
    decreases |recs|
  {
    if n == |recs| {
      assert recs[..n] == recs;
    } else {
      var before := recs[..|recs| - 1];
      assert before[..n] == recs[..n];
      StaleForever(cfg, before, n, tok);
      TokensStayDistinct(cfg, before);
      StaleStaysStale(cfg, Run(cfg, before), recs[|recs| - 1].call, recs[|recs| - 1].now, tok);
    }
    assert forall id, now :: Accepts(Run(cfg, recs), id, tok, now) ==> id in Found(Run(cfg, recs), Sha256(tok));
  }

  /** After the next two rotations of its session a token is stale. */
  lemma TwoRotationsMakeStale(
    cfg: Config, st: Store, id: SessionId, t0: Token, t1: Token, t2: Token, at1: int, at2: int)
    requires Inv(st) && t1 !in st.issued && t2 !in st.issued + {t1}
    requires Accepts(st, id, t0, at1) && st.sessions[id].current == Sha256(t0)
    requires Accepts(Apply(cfg, st, Refresh(t0, t1), at1).0, id, t1, at2)
    ensures Stale(Apply(cfg, Apply(cfg, st, Refresh(t0, t1), at1).0, Refresh(t1, t2), at2).0, t0)
  {
    var one := Apply(cfg, st, Refresh(t0, t1), at1).0;
    RotationEffect(cfg, st, t0, t1, at1, id);
    CallKeepsInv(cfg, st, Refresh(t0, t1), at1);
    RefreshReply(cfg, st, t0, t1, at1, id);
    assert SessionInv(st.issued, st.sessions[id]);
    assert one.issued == st.issued + {t1};
    RotationEffect(cfg, one, t1, t2, at2, id);
    RefreshReply(cfg, one, t1, t2, at2, id);
    var two := Apply(cfg, one, Refresh(t1, t2), at2).0;
    forall x | x in two.sessions ensures !Holds(two.sessions[x], Sha256(t0)) {
      if x != id {
        assert Holds(st.sessions[id], Sha256(t0));
      }
    }
  }

  /** The retry inside the grace minute hands the old token back. A client that keeps using what
      it was given is answered as a thief on its first refresh after that minute, and its session
      is revoked. */
  lemma GraceRetryLocksOut(
    cfg: Config, st: Store, raw: Token, d1: Token, d2: Token, now: int, later: int, id: SessionId)
    requires Inv(st) && d1 !in st.issued && d2 !in st.issued
    requires Accepts(st, id, raw, now) && st.sessions[id].current != Sha256(raw)
    requires later > st.sessions[id].rotatedAt.value + REUSE_GRACE
    ensures Apply(cfg, st, Refresh(raw, d1), now) == (st, Issued(id, raw))
    ensures Apply(cfg, st, Refresh(raw, d2), later).1 == ReuseDetected
    ensures IsRevoked(Apply(cfg, st, Refresh(raw, d2), later).0, id)
  {
    RefreshReply(cfg, st, raw, d1, now, id);
    RefreshReply(cfg, st, raw, d2, later, id);
  }

  // ---------------------------------------------------------------- sliding expiry

  /** The record created the session or rotated its current token through a refresh. */
  ghost predicate Renews(r: Record, id: SessionId) {
    && r.reply.Issued? && r.reply.id == id
    && (r.call.Create? || (r.call.Refresh? && r.reply.token == r.call.drawn))
  }

  ghost predicate RenewedAt(recs: seq<Record>, id: SessionId, at: int) {
    exists j :: 0 <= j < |recs| && Renews(recs[j], id) && recs[j].now == at
  }

  lemma RenewedEarlier(recs: seq<Record>, id: SessionId, at: int)
    requires recs != [] && RenewedAt(recs[..|recs| - 1], id, at)
    ensures RenewedAt(recs, id, at)
  {
    var j :| 0 <= j < |recs| - 1 && Renews(recs[..|recs| - 1][j], id) && recs[..|recs| - 1][j].now == at;
    assert recs[j] == recs[..|recs| - 1][j];
  }

  /** A call either leaves a session's expiry alone or renews the session. */
  lemma ExpiryStep(cfg: Config, st: Store, r: Record, id: SessionId)
    requires Inv(st) && Fresh(st, r.call) && r.reply == Apply(cfg, st, r.call, r.now).1
    requires id in Apply(cfg, st, r.call, r.now).0.sessions
    ensures var next := Apply(cfg, st, r.call, r.now).0.sessions[id];
            || (Renews(r, id) && next.expiresAt == r.now + cfg.ttl)
            || (id in st.sessions && next.expiresAt == st.sessions[id].expiresAt)
  {
    if r.call.Refresh? {
      var found := Found(st, Sha256(r.call.raw));
      if found != {} {
        var x :| x in found;
        RefreshReply(cfg, st, r.call.raw, r.call.drawn, r.now, x);
      }
    }
  }

  lemma {:induction false} ExpiryTracksRenewal(cfg: Config, recs: seq<Record>, id: SessionId)
    requires ValidRun(cfg, recs) && id in Run(cfg, recs).sessions
    ensures RenewedAt(recs, id, Run(cfg, recs).sessions[id].expiresAt - cfg.ttl)
  {
    var before, r := recs[..|recs| - 1], recs[|recs| - 1];
    TokensStayDistinct(cfg, before);
    ExpiryStep(cfg, Run(cfg, before), r, id);
    if id in Run(cfg, before).sessions {
      ExpiryTracksRenewal(cfg, before, id);
      RenewedEarlier(recs, id, Run(cfg, before).sessions[id].expiresAt - cfg.ttl);
    }
    if Renews(r, id) {
      assert RenewedAt(recs, id, r.now);
    }
  }

  /** Whenever a refresh succeeds, the session was created or rotated by a refresh no longer than
      the token lifetime ago. Completing MFA does not count: it rotates without extending. */
  lemma SuccessNeedsRecentRenewal(cfg: Config, recs: seq<Record>, raw: Token, drawn: Token, now: int)
    requires ValidRun(cfg, recs) && drawn !in Run(cfg, recs).issued
    requires Apply(cfg, Run(cfg, recs), Refresh(raw, drawn), now).1.Issued?
    ensures exists at :: at >= now - cfg.ttl &&
              RenewedAt(recs, Apply(cfg, Run(cfg, recs), Refresh(raw, drawn), now).1.id, at)
  {
    var st := Run(cfg, recs);
    TokensStayDistinct(cfg, recs);
    RefreshSucceedsIff(cfg, st, raw, drawn, now);
    var id :| Accepts(st, id, raw, now);
    ExpiryTracksRenewal(cfg, recs, id);
    assert RenewedAt(recs, id, st.sessions[id].expiresAt - cfg.ttl);
  }
}
