/** The failed-login counter and the temporary lock (backend/app/services/auth_service.py). */
module LoginLockout {
  import opened Prelude

  datatype Status = Invited | ActiveAccount | Disabled

  /** `passwordOk` and `tenantOk` are what the password check and the tenant row say. */
  datatype Attempt = Attempt(at: int, passwordOk: bool, tenantOk: bool)

  datatype Account = Account(status: Status, failures: nat, lockedUntil: Option<int>)

  /** Threshold and lock duration, in the clock's unit. */
  datatype Policy = Policy(maxAttempts: nat, lockout: nat)

  datatype Result = LoggedIn | AccountLocked | AccountDisabled | InvalidCredentials | TenantSuspended

  function FailLogin(p: Policy, a: Account, now: int): Account {
    var failures := a.failures + 1;
    a.(failures := failures,
       lockedUntil := if failures >= p.maxAttempts then Some(now + p.lockout) else a.lockedUntil)
  }

  function Login(p: Policy, a: Account, x: Attempt): (Account, Result) {
    if a.lockedUntil.Some? && a.lockedUntil.value > x.at then (a, AccountLocked)
    else if a.status == Disabled then (a, AccountDisabled)
    else if !x.passwordOk || a.status != ActiveAccount then (FailLogin(p, a, x.at), InvalidCredentials)
    else if !x.tenantOk then (a, TenantSuspended)
    else (a.(failures := 0, lockedUntil := None), LoggedIn)
  }

  class AccountRow {
    const policy: Policy
    var status: Status
    var failedLoginAttempts: nat
    var lockedUntil: Option<int>

    ghost function State(): Account
      reads this
    {
      Account(status, failedLoginAttempts, lockedUntil)
    }

    constructor (policy: Policy, status: Status)
      ensures this.policy == policy && State() == Account(status, 0, None)
    {
      this.policy, this.status := policy, status;
      failedLoginAttempts, lockedUntil := 0, None;
    }

    method Fail(now: int)
      modifies this
      ensures State() == FailLogin(policy, old(State()), now)
    {
      failedLoginAttempts := failedLoginAttempts + 1;
      if failedLoginAttempts >= policy.maxAttempts {
        lockedUntil := Some(now + policy.lockout);
      }
    }

    method TryLogin(x: Attempt) returns (r: Result)
      modifies this
      ensures (State(), r) == Login(policy, old(State()), x)
    {
      if lockedUntil.Some? && lockedUntil.value > x.at {
        return AccountLocked;
      }
      if status == Disabled {
        return AccountDisabled;
      }
      if !x.passwordOk {
        Fail(x.at);
        return InvalidCredentials;
      }
      if status != ActiveAccount {
        Fail(x.at);
        return InvalidCredentials;
      }
      if !x.tenantOk {
        return TenantSuspended;
      }
      failedLoginAttempts := 0;
      lockedUntil := None;
      return LoggedIn;
    }
  }

  // --------------------------------------------------------------- one attempt, in full

  predicate Locked(a: Account, at: int) { a.lockedUntil.Some? && a.lockedUntil.value > at }

  /** A login succeeds exactly for a right password on an active account of a running tenant that is not
      locked; it clears the counter and the lock. */
  lemma LoginSucceedsIff(p: Policy, a: Account, x: Attempt)
    ensures Login(p, a, x).1 == LoggedIn <==>
            !Locked(a, x.at) && a.status == ActiveAccount && x.passwordOk && x.tenantOk
    ensures Login(p, a, x).1 == LoggedIn ==> Login(p, a, x).0 == Account(a.status, 0, None)
  {
  }

  /** An attempt is counted exactly when the account is neither locked nor disabled, and the password is
      wrong or the account not active yet; from the threshold on it locks for the full duration. */
  lemma LoginFailsIff(p: Policy, a: Account, x: Attempt)
    ensures Login(p, a, x).1 == InvalidCredentials <==>
            !Locked(a, x.at) && a.status != Disabled && (!x.passwordOk || a.status == Invited)
    ensures Login(p, a, x).1 == InvalidCredentials ==>
              var next := Login(p, a, x).0;
              && next.failures == a.failures + 1 && next.status == a.status
              && next.lockedUntil == if next.failures >= p.maxAttempts then Some(x.at + p.lockout) else a.lockedUntil
  {
  }

  /** Everything else leaves the account as it is and says why. */
  lemma LoginRefusals(p: Policy, a: Account, x: Attempt)
    ensures Locked(a, x.at) ==> Login(p, a, x) == (a, AccountLocked)
    ensures !Locked(a, x.at) && a.status == Disabled ==> Login(p, a, x) == (a, AccountDisabled)
    ensures !Locked(a, x.at) && a.status == ActiveAccount && x.passwordOk && !x.tenantOk ==>
              Login(p, a, x) == (a, TenantSuspended)
  {
  }

  // ------------------------------------------------------------- runs of attempts

  function After(p: Policy, a: Account, xs: seq<Attempt>): Account {
    if xs == [] then a else Login(p, After(p, a, xs[..|xs| - 1]), xs[|xs| - 1]).0
  }

  function CountOf(r: Result): nat { if r == InvalidCredentials then 1 else 0 }

  /** How many of the attempts reach the failure counter. */
  function Counted(p: Policy, a: Account, xs: seq<Attempt>): nat {
    if xs == [] then 0
    else
      var before := xs[..|xs| - 1];
      Counted(p, a, before) + CountOf(Login(p, After(p, a, before), xs[|xs| - 1]).1)
  }

  ghost predicate NoSuccess(p: Policy, a: Account, xs: seq<Attempt>) {
    xs == [] ||
    var before := xs[..|xs| - 1];
    NoSuccess(p, a, before) && Login(p, After(p, a, before), xs[|xs| - 1]).1 != LoggedIn
  }

  /** The attempts happen in order within [from, to]. */
  ghost predicate Within(xs: seq<Attempt>, from: int, to: int) {
    && (forall i :: 0 <= i < |xs| ==> from <= xs[i].at <= to)
    && (forall i, j :: 0 <= i < j < |xs| ==> xs[i].at <= xs[j].at)
  }

  /** k lock durations. */
  function Locks(p: Policy, k: nat): nat {
    if k == 0 then 0 else Locks(p, k - 1) + p.lockout
  }

  lemma {:induction false} LocksProduct(p: Policy, k: nat)
    ensures Locks(p, k) == k * p.lockout
  {
    if k > 0 {
      LocksProduct(p, k - 1);
      assert (k - 1) * p.lockout + p.lockout == k * p.lockout;
    }
  }

  function Threshold(p: Policy): nat { if p.maxAttempts == 0 then 1 else p.maxAttempts }

  /** Counted attempts from the threshold on each pushed the lock a full duration further. */
  ghost predicate Paced(p: Policy, a: Account, n: nat, from: int) {
    && a.failures >= n
    && (n >= Threshold(p) ==>
          a.lockedUntil.Some? && a.lockedUntil.value >= from + Locks(p, n - Threshold(p) + 1))
  }

  lemma PacedStep(p: Policy, a: Account, n: nat, from: int, x: Attempt)
    requires Paced(p, a, n, from) && from <= x.at && Login(p, a, x).1 == InvalidCredentials
    ensures Paced(p, Login(p, a, x).0, n + 1, from)
    ensures n >= Threshold(p) ==> x.at >= from + Locks(p, n - Threshold(p) + 1)
  {
  }

  /** Paced, and the counted attempts beyond the threshold fit into the span. */
  ghost predicate PacedWithin(p: Policy, a: Account, n: nat, from: int, to: int) {
    Paced(p, a, n, from) && (n > Threshold(p) ==> to >= from + Locks(p, n - Threshold(p)))
  }

  /** One more attempt, counted or not. */
  lemma PacedNext(p: Policy, a: Account, n: nat, from: int, to: int, x: Attempt)
    requires PacedWithin(p, a, n, from, to) && from <= x.at <= to && Login(p, a, x).1 != LoggedIn
    ensures PacedWithin(p, Login(p, a, x).0, n + CountOf(Login(p, a, x).1), from, to)
  {
    if Login(p, a, x).1 == InvalidCredentials {
      PacedStep(p, a, n, from, x);
    }
  }

  lemma WithinInit(xs: seq<Attempt>, from: int, to: int)
    requires Within(xs, from, to) && xs != []
    ensures Within(xs[..|xs| - 1], from, to) && from <= xs[|xs| - 1].at <= to
  {
  }

  lemma {:induction false} RunPaced(p: Policy, a: Account, xs: seq<Attempt>, from: int, to: int)
    requires Within(xs, from, to) && NoSuccess(p, a, xs)
    ensures PacedWithin(p, After(p, a, xs), Counted(p, a, xs), from, to)
  {
    if xs != [] {
      var before, x := xs[..|xs| - 1], xs[|xs| - 1];
      WithinInit(xs, from, to);
      RunPaced(p, a, before, from, to);
      var now, n := After(p, a, before), Counted(p, a, before);
      PacedNext(p, now, n, from, to, x);
      assert After(p, a, xs) == Login(p, now, x).0 && Counted(p, a, xs) == n + CountOf(Login(p, now, x).1);
    }
  }

  lemma RateArithmetic(counted: nat, threshold: nat, lockout: nat, span: nat)
    requires lockout > 0 && (counted > threshold ==> (counted - threshold) * lockout <= span)
    ensures counted <= threshold + span / lockout
  {
    FitsIff(counted - threshold, lockout, span);
  }

  /** With threshold N and lock L, whatever state the account starts in, any span of length T
      without a successful login lets at most N + floor(T / L) failing attempts through to the
      counter. (A threshold of zero locks like a threshold of one.) */
  lemma LockoutRate(p: Policy, a: Account, xs: seq<Attempt>, from: int, to: int)
    requires p.lockout > 0 && from <= to && Within(xs, from, to) && NoSuccess(p, a, xs)
    ensures Counted(p, a, xs) <= Threshold(p) + (to - from) / p.lockout
  {
    RunPaced(p, a, xs, from, to);
    if Counted(p, a, xs) > Threshold(p) {
      LocksProduct(p, Counted(p, a, xs) - Threshold(p));
    }
    RateArithmetic(Counted(p, a, xs), Threshold(p), p.lockout, to - from);
  }

  // -------------------------------------------------------------- the bound is reached

  /** N wrong passwords at once, then one more at each expiry of the lock. */
  function Persistent(p: Policy, from: int, extra: nat): seq<Attempt> {
    seq(Threshold(p), i => Attempt(from, false, true)) +
      seq(extra, (i: nat) => Attempt(from + Locks(p, i + 1), false, true))
  }

  lemma {:induction false} PersistentCounts(p: Policy, from: int, xs: seq<Attempt>, a: Account, n: nat)
    requires n <= Threshold(p) && xs == seq(n, i => Attempt(from, false, true))
    requires a == Account(ActiveAccount, 0, None)
    ensures Counted(p, a, xs) == n && After(p, a, xs).failures == n && After(p, a, xs).status == ActiveAccount
    ensures n < Threshold(p) ==> After(p, a, xs).lockedUntil == None
    ensures n == Threshold(p) ==> After(p, a, xs).lockedUntil == Some(from + p.lockout)
  {
    if n > 0 {
      PersistentCounts(p, from, xs[..n - 1], a, n - 1);
    }
  }

  lemma PersistentSnoc(p: Policy, from: int, extra: nat)
    ensures Persistent(p, from, extra + 1) ==
            Persistent(p, from, extra) + [Attempt(from + Locks(p, extra + 1), false, true)]
  {
  }

  lemma CountSnoc(p: Policy, a: Account, xs: seq<Attempt>, x: Attempt)
    ensures After(p, a, xs + [x]) == Login(p, After(p, a, xs), x).0
    ensures Counted(p, a, xs + [x]) ==
            Counted(p, a, xs) + CountOf(Login(p, After(p, a, xs), x).1)
  {
    assert (xs + [x])[..|xs|] == xs;
  }

  /** All of `xs` counted, and the lock now ends after `locks` durations. */
  ghost predicate AllCounted(p: Policy, from: int, xs: seq<Attempt>, locks: nat) {
    var a := Account(ActiveAccount, 0, None);
    && Counted(p, a, xs) == |xs|
    && After(p, a, xs) == Account(ActiveAccount, |xs|, Some(from + Locks(p, locks)))
  }

  lemma CountedAtExpiry(p: Policy, from: int, xs: seq<Attempt>, locks: nat)
    requires AllCounted(p, from, xs, locks) && |xs| >= Threshold(p)
    ensures AllCounted(p, from, xs + [Attempt(from + Locks(p, locks), false, true)], locks + 1)
  {
    CountSnoc(p, Account(ActiveAccount, 0, None), xs, Attempt(from + Locks(p, locks), false, true));
  }

  lemma PersistentStart(p: Policy, from: int)
    ensures AllCounted(p, from, Persistent(p, from, 0), 1)
  {
    var xs := Persistent(p, from, 0);
    assert xs == seq(Threshold(p), i => Attempt(from, false, true));
    PersistentCounts(p, from, xs, Account(ActiveAccount, 0, None), Threshold(p));
    assert Locks(p, 1) == p.lockout;
  }

  lemma {:induction false} PersistentExtra(p: Policy, from: int, extra: nat)
    ensures AllCounted(p, from, Persistent(p, from, extra), extra + 1)
  {
    if extra == 0 {
      PersistentStart(p, from);
    } else {
      PersistentExtra(p, from, extra - 1);
      PersistentGrows(p, from, extra - 1, Persistent(p, from, extra - 1), Persistent(p, from, extra));
    }
  }

  lemma PersistentGrows(p: Policy, from: int, extra: nat, xs: seq<Attempt>, ys: seq<Attempt>)
    requires xs == Persistent(p, from, extra) && ys == Persistent(p, from, extra + 1)
    requires AllCounted(p, from, xs, extra + 1)
    ensures AllCounted(p, from, ys, extra + 2)
  {
    CountedAtExpiry(p, from, xs, extra + 1);
    PersistentSnoc(p, from, extra);
  }

  lemma {:induction false} LocksMono(p: Policy, i: nat, j: nat)
    requires i <= j
    ensures Locks(p, i) <= Locks(p, j)
  {
    if i < j {
      LocksMono(p, i, j - 1);
    }
  }

  /** The persistent guesser's attempts, in order and within any span that holds them. */
  lemma PersistentWithin(p: Policy, from: int, extra: nat, span: nat)
    requires Locks(p, extra) <= span
    ensures Within(Persistent(p, from, extra), from, from + span)
  {
    var xs, n := Persistent(p, from, extra), Threshold(p);
    forall i | 0 <= i < |xs| ensures from <= xs[i].at <= from + span {
      if i >= n {
        LocksMono(p, i - n + 1, extra);
      }
    }
    forall i, j | 0 <= i < j < |xs| ensures xs[i].at <= xs[j].at {
      if i >= n {
        LocksMono(p, i - n + 1, j - n + 1);
      }
    }
  }

  lemma {:induction false} WrongPasswordsNeverSucceed(p: Policy, a: Account, xs: seq<Attempt>)
    requires forall i :: 0 <= i < |xs| ==> !xs[i].passwordOk
    ensures NoSuccess(p, a, xs)
  {
    if xs != [] {
      WrongPasswordsNeverSucceed(p, a, xs[..|xs| - 1]);
    }
  }

  /** The bound cannot be improved: from a clean account a persistent guesser reaches it. */
  lemma LockoutRateReached(p: Policy, from: int, span: nat)
    requires p.lockout > 0
    ensures var a, xs := Account(ActiveAccount, 0, None), Persistent(p, from, span / p.lockout);
            && Within(xs, from, from + span) && NoSuccess(p, a, xs)
            && Counted(p, a, xs) == Threshold(p) + span / p.lockout
  {
    var extra := span / p.lockout;
    PersistentExtra(p, from, extra);
    LocksProduct(p, extra);
    FitsIff(extra, p.lockout, span);
    PersistentWithin(p, from, extra, span);
    WrongPasswordsNeverSucceed(p, Account(ActiveAccount, 0, None), Persistent(p, from, extra));
  }
}
