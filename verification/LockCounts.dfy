/** What the lock manager counts: where the counting starts over, what a number of failures leads to, and for whom. */
module LockCounts {
  import opened Wrappers
  import opened LockManager

  // ---------------------------------------------------------------- where the counting starts over

  /** No failure is counted and nothing is locked. */
  predicate Clear(s: Lock) { !s.locked && s.failures == 0 && s.lockTime.None? }

  /** A check starts the counting over exactly when it comes after the end of a lock, or later than the reset window
      after the last attempt on a key that was never locked. */
  lemma CheckClearsExactlyWhen(s: Lock, now: int, reset: int)
    ensures Clear(Checked(s, now, reset).0) <==>
            || Clear(s)
            || (s.lastAttempt.Some? && s.lockTime.Some? && now > s.lockTime.value)
            || (s.lastAttempt.Some? && s.lockTime.None? && !s.locked && now - s.lastAttempt.value > reset)
  {}

  /** From there on, failures close together are counted one by one, up to one less than `max` they do not lock, and
      number `max` locks until its own time plus the lock time. */
  lemma CountsFromClear(s: Lock, ops: seq<KeyOp>, now: int, r: Rule)
    requires Clear(s) && r.max >= 1 && Close(None, ops + [Fail(now)], r.reset) && Failures(ops) < r.max
    ensures var t := AfterKeyOps(s, ops, r);
            var u := Updated(t, now, false, r);
      && !t.locked && t.failures == Failures(ops) && !Checked(t, now, r.reset).1
      && u.failures == Failures(ops) + 1 && u.lastAttempt == Some(now)
      && (u.locked <==> Failures(ops) + 1 == r.max) && (u.locked ==> u.lockTime == Some(now + r.lock))
  {
    ClosePrefix(None, ops, [Fail(now)], r.reset);
    StaysBelow(s, ops, r);
  }

  lemma {:induction false} StaysBelow(s: Lock, ops: seq<KeyOp>, r: Rule)
    requires Clear(s) && Close(None, ops, r.reset) && Failures(ops) < r.max
    ensures var t := AfterKeyOps(s, ops, r);
            !t.locked && t.lockTime.None? && t.failures == Failures(ops)
    decreases |ops|
  {
    if ops != [] {
      var t := AfterKeyOp(s, ops[0], r);
      if ops[0].Check? {
        CheckClearsExactlyWhen(s, ops[0].now, r.reset);
        StaysBelow(t, ops[1..], r);
      } else {
        CountsUpToTheThreshold(t, ops[1..], r);
      }
    }
  }

  /** A successful login starts the counting over, whatever the state: the key is unlocked, checks admit, and only
      failures after it count. */
  lemma SuccessStartsOver(s: Lock, at: int, ops: seq<KeyOp>, now: int, r: Rule)
    requires r.max >= 1 && Close(None, ops + [Fail(now)], r.reset) && Failures(ops) < r.max
    ensures var t := AfterKeyOps(Updated(s, at, true, r), ops, r);
            var u := Updated(t, now, false, r);
      && !t.locked && t.failures == Failures(ops) && !Checked(t, now, r.reset).1
      && (u.locked <==> Failures(ops) + 1 == r.max) && (u.locked ==> u.lockTime == Some(now + r.lock))
  {
    CountsFromClear(Updated(s, at, true, r), ops, now, r);
  }

  lemma {:induction false} FailuresAddUp(s: Lock, ops: seq<KeyOp>, r: Rule)
    requires forall op :: op in ops ==> op.Fail?
    ensures AfterKeyOps(s, ops, r).failures == s.failures + |ops|
    decreases |ops|
  {
    if ops != [] {
      assert ops[0] in ops && forall op :: op in ops[1..] ==> op in ops;
      FailuresAddUp(AfterKeyOp(s, ops[0], r), ops[1..], r);
    }
  }

  /** Every failure from number `max` on locks again, from its own time. */
  lemma LaterFailuresLockLonger(s: Lock, ops: seq<KeyOp>, now: int, r: Rule)
    requires s.failures >= 0 && (forall op :: op in ops ==> op.Fail?) && |ops| + 1 >= r.max
    ensures var t := AfterKeyOps(s, ops + [Fail(now)], r);
            t.locked && t.lockTime == Some(now + r.lock) && t.lastAttempt == Some(now)
  {
    FailuresAddUp(s, ops, r);
    LastIs(s, ops, Fail(now), r);
  }

  lemma {:induction false} LastIs(s: Lock, ops: seq<KeyOp>, op: KeyOp, r: Rule)
    ensures AfterKeyOps(s, ops + [op], r) == AfterKeyOp(AfterKeyOps(s, ops, r), op, r)
    decreases |ops|
  {
    if ops == [] {
      assert (ops + [op])[1..] == [];
    } else {
      assert (ops + [op])[1..] == ops[1..] + [op];
      LastIs(AfterKeyOp(s, ops[0], r), ops[1..], op, r);
    }
  }

  // ---------------------------------------------------------------- what a sweep keeps

  /** The key refuses and its last attempt is not older than the expiration. */
  predicate IsKept(e: Option<Lock>, now: int, reset: int, expiration: int) {
    && e.Some? && e.value.locked && e.value.lastAttempt.Some?
    && (e.value.lockTime.Some? ==> now <= e.value.lockTime.value)
    && now - e.value.lastAttempt.value <= reset && now - e.value.lastAttempt.value <= expiration
  }

  /** In each of the three spaces a sweep leaves exactly the entries that refuse now and are not expired, unchanged. */
  lemma SweepKeepsExactly(c: Config, l: Locks, now: int, ip: string, user: string)
    ensures var t := Swept(c, l, now);
      && Entry(t.ip, ip) == (if IsKept(Entry(l.ip, ip), now, c.ip.reset, c.expiration) then Entry(l.ip, ip) else None)
      && Entry(t.user, user)
         == (if IsKept(Entry(l.user, user), now, c.user.reset, c.expiration) then Entry(l.user, user) else None)
      && PairEntry(t.ipUser, user, ip)
         == (if IsKept(PairEntry(l.ipUser, user, ip), now, c.ipUser.reset, c.expiration)
             then PairEntry(l.ipUser, user, ip) else None)
  {
    SweepKeepsSurvivors(c, l, now, ip, user);
  }

  // ---------------------------------------------------------------- the manager

  /** The address, the user and the pair are not locked; the empty user has no locks. */
  predicate Opened(l: Locks, user: string, ip: string) {
    && (Entry(l.ip, ip).Some? ==> !l.ip[ip].locked)
    && (user != "" && Entry(l.user, user).Some? ==> !l.user[user].locked)
    && (user != "" && PairEntry(l.ipUser, user, ip).Some? ==> !l.ipUser[user][ip].locked)
  }

  /** A failed login of the user or from the address. */
  predicate FailsOn(op: Op, user: string, ip: string) {
    op.Login? && !op.success && (op.user == user || op.ip == Some(ip))
  }

  lemma OpenedStays(c: Config, l: Locks, op: Op, user: string, ip: string)
    requires Opened(l, user, ip) && !FailsOn(op, user, ip)
    ensures Opened(After(c, l, op), user, ip)
  {
    match op
    case Ask(q) => OpenedAfterCheck(c, l, q, user, ip);
    case Login(u, i, at, success) => OpenedAfterUpdate(c, l, op, user, ip);
    case Clean(now) => SweepKeepsSurvivors(c, l, now, ip, user);
  }

  lemma OpenedAfterCheck(c: Config, l: Locks, q: Request, user: string, ip: string)
    requires Opened(l, user, ip)
    ensures Opened(CheckLocked(c, l, q).0, user, ip)
  {
    if q.ip.Some? {
      CheckLockedMayCheck(c, l, q);
    }
  }

  lemma OpenedAfterUpdate(c: Config, l: Locks, op: Op, user: string, ip: string)
    requires Opened(l, user, ip) && op.Login? && !FailsOn(op, user, ip)
    ensures Opened(UpdateLoginStatus(c, l, op.user, op.ip, op.at, op.success), user, ip)
  {
    if op.ip.Some? {
      UpdatedParts(c, l, op.user, op.ip.value, op.at, op.success);
    }
  }

  lemma {:induction false} OpenedAdmits(c: Config, l: Locks, user: string, ip: string, ops: seq<Op>, q: Request)
    requires Opened(l, user, ip) && (forall op :: op in ops ==> !FailsOn(op, user, ip))
    requires q.user == user && q.ip == Some(ip)
    ensures CheckLocked(c, AfterAll(c, l, ops), q).1
    decreases |ops|
  {
    if ops == [] {
      AdmitsExactlyWhen(c, l, q);
    } else {
      assert ops[0] in ops;
      OpenedStays(c, l, ops[0], user, ip);
      OpenedAdmits(c, After(c, l, ops[0]), user, ip, ops[1..], q);
    }
  }

  /** After a successful login the user is admitted from that address until its next failed login, or the next from that
      address, whatever came before and whatever checks, sweeps and logins of others come in between. */
  lemma SuccessAdmits(c: Config, l: Locks, user: string, ip: string, at: int, ops: seq<Op>, q: Request)
    requires forall op :: op in ops ==> !FailsOn(op, user, ip)
    requires q.user == user && q.ip == Some(ip)
    ensures CheckLocked(c, AfterAll(c, UpdateLoginStatus(c, l, user, Some(ip), at, true), ops), q).1
  {
    var m := UpdateLoginStatus(c, l, user, Some(ip), at, true);
    UpdatedParts(c, l, user, ip, at, true);
    OpenedAdmits(c, m, user, ip, ops, q);
  }

  /** `n` failures at time 0 lock a key of this kind, and the lock is not over at `now`. */
  predicate StillLocks(r: Rule, n: nat, now: int) { 0 < r.max <= n && now <= r.lock && now <= r.reset }

  lemma FailuresLock(r: Rule, n: nat, now: int)
    requires n > 0 && now >= 0 && r.max > 0
    ensures Checked(FailedAtZero(r, n), now, r.reset).1 <==> StillLocks(r, n, now)
  {
    FailedIs(r, n);
    LastAttemptIsZero(r, n);
  }

  /** After failed logins of one user from one address exactly these requests are refused: from that address, of that
      user, and of that user from that address, each if its kind is on, its number of failures is reached, and neither
      the lock time nor the reset window is over. */
  lemma RefusedAfterFailuresExactlyWhen(c: Config, user: string, ip: string, n: nat, q: Request)
    requires user != "" && n > 0 && q.now >= 0
    ensures var l := AfterAll(c, EMPTY, Repeat(FailedLogin(user, ip), n));
      CheckLocked(c, l, q).1 <==>
        || !c.enabled || q.ip.None? || q.whitelisted
        || (&& (q.ip == Some(ip) ==> !StillLocks(c.ip, n, q.now))
            && (q.user == user ==> !StillLocks(c.user, n, q.now))
            && (q.user == user && q.ip == Some(ip) ==> !StillLocks(c.ipUser, n, q.now)))
  {
    FailsLeave(c, user, ip, n);
    AdmitsExactlyWhen(c, FailedLocks(c, user, ip, n), q);
    if c.ip.max > 0 {
      FailuresLock(c.ip, n, q.now);
    }
    if c.user.max > 0 {
      FailuresLock(c.user, n, q.now);
    }
    if c.ipUser.max > 0 {
      FailuresLock(c.ipUser, n, q.now);
    }
  }

  /** What a check leaves of an entry. */
  function AfterCheck(e: Option<Lock>, now: int, reset: int): Option<Lock> {
    if e.Some? then Some(Checked(e.value, now, reset).0) else None
  }

  predicate RefusesIf(asked: bool, e: Option<Lock>, now: int, reset: int) {
    asked && e.Some? && Checked(e.value, now, reset).1
  }

  /** CheckLocked looks at the address, the user and the pair in turn, if their kind is on, up to the first refusal;
      only the entries it looked at may expire. */
  lemma CheckLockedLeaves(c: Config, l: Locks, q: Request, user: string, ip: string)
    requires c.enabled && q.ip.Some? && !q.whitelisted
    ensures var m := CheckLocked(c, l, q).0;
            var ipAsked := c.ip.max > 0;
            var userAsked := c.user.max > 0 && q.user != ""
                             && !RefusesIf(ipAsked, Entry(l.ip, q.ip.value), q.now, c.ip.reset);
            var pairAsked := c.ipUser.max > 0 && q.user != ""
                             && !RefusesIf(ipAsked, Entry(l.ip, q.ip.value), q.now, c.ip.reset)
                             && !RefusesIf(userAsked, Entry(l.user, q.user), q.now, c.user.reset);
      && Entry(m.ip, ip) == (if ipAsked && ip == q.ip.value then AfterCheck(Entry(l.ip, ip), q.now, c.ip.reset)
                             else Entry(l.ip, ip))
      && Entry(m.user, user)
         == (if userAsked && user == q.user then AfterCheck(Entry(l.user, user), q.now, c.user.reset)
             else Entry(l.user, user))
      && PairEntry(m.ipUser, user, ip)
         == (if pairAsked && user == q.user && ip == q.ip.value
             then AfterCheck(PairEntry(l.ipUser, user, ip), q.now, c.ipUser.reset) else PairEntry(l.ipUser, user, ip))
  {}

  /** A login writes the entries of its address, of its user and of the pair, a missing one from a fresh state, and no
      other entry; without an address it writes nothing, and without a user only the address. */
  lemma UpdateWrites(c: Config, l: Locks, user: string, ip: Option<string>, now: int, success: bool, u: string,
                     k: string)
    ensures var m := UpdateLoginStatus(c, l, user, ip, now, success);
      && Entry(m.ip, k) == (if ip == Some(k) then Some(Updated(OrFresh(Entry(l.ip, k)), now, success, c.ip))
                            else Entry(l.ip, k))
      && Entry(m.user, u)
         == (if ip.Some? && user == u && u != "" then Some(Updated(OrFresh(Entry(l.user, u)), now, success, c.user))
             else Entry(l.user, u))
      && PairEntry(m.ipUser, u, k)
         == (if ip == Some(k) && user == u && u != ""
             then Some(Updated(OrFresh(PairEntry(l.ipUser, u, k)), now, success, c.ipUser))
             else PairEntry(l.ipUser, u, k))
  {
    if ip.Some? {
      UpdatedParts(c, l, user, ip.value, now, success);
    }
  }

  function OrFresh(e: Option<Lock>): Lock { if e.Some? then e.value else Lock(false, 0, None, None) }
}
