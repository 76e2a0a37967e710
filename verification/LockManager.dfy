/** Brute-force locks on addresses, users and user-address pairs: one failure counter with a lock time per key, expired
    lazily by checks and dropped by a sweeper.

    Times and durations are integers on one clock; None stands for Go's zero time. */
module LockManager {
  import opened Wrappers

  /** The value of a LockState. */
  datatype Lock = Lock(locked: bool, failures: int, lockTime: Option<int>, lastAttempt: Option<int>)

  const FRESH := Lock(false, 0, None, None)

  /** The settings of one key space. `max` of zero or less switches its checks off. */
  datatype Rule = Rule(max: int, reset: int, lock: int)

  datatype Config = Config(enabled: bool, ip: Rule, user: Rule, ipUser: Rule, expiration: int)

  // ---------------------------------------------------------------- one key

  function Unlocked(s: Lock): Lock { s.(failures := 0, lockTime := None, locked := false) }

  /** UpdateLockState. */
  function Updated(s: Lock, now: int, success: bool, r: Rule): Lock {
    if success then Unlocked(s).(lastAttempt := Some(now))
    else if s.failures + 1 >= r.max then
      Lock(true, s.failures + 1, Some(now + r.lock), Some(now))
    else s.(failures := s.failures + 1, lastAttempt := Some(now))
  }

  /** CheckLockState: the state it leaves and whether the key is locked. */
  function Checked(s: Lock, now: int, reset: int): (Lock, bool) {
    if s.lastAttempt.None? then (s, false)
    else if s.lockTime.Some? && now > s.lockTime.value then (Unlocked(s), false)
    else if now - s.lastAttempt.value > reset then (s.(failures := 0), false)
    else (s, s.locked)
  }

  /** The sweeper keeps the key. */
  predicate Survives(s: Lock, now: int, reset: int, expiration: int) {
    Checked(s, now, reset).1 && s.lastAttempt.Some? && now - s.lastAttempt.value <= expiration
  }

  /** From `now` on every check of the key admits, whatever checks come before it. */
  predicate Dead(s: Lock, now: int, reset: int) {
    || s.lastAttempt.None?
    || !s.locked
    || (s.lockTime.Some? && now > s.lockTime.value)
    || now - s.lastAttempt.value > reset
  }

  /** A check that refuses changes nothing. */
  lemma RefusalLeavesTheLock(s: Lock, now: int, reset: int)
    requires Checked(s, now, reset).1
    ensures Checked(s, now, reset).0 == s && s.lastAttempt.Some?
  {}

  // ---------------------------------------------------------------- threshold

  /** What can happen to a key between a first failure and its lock. */
  datatype KeyOp = Fail(now: int) | Check(now: int)

  function AfterKeyOp(s: Lock, op: KeyOp, r: Rule): Lock {
    match op
    case Fail(now) => Updated(s, now, false, r)
    case Check(now) => Checked(s, now, r.reset).0
  }

  function AfterKeyOps(s: Lock, ops: seq<KeyOp>, r: Rule): Lock
    decreases |ops|
  {
    if ops == [] then s else AfterKeyOps(AfterKeyOp(s, ops[0], r), ops[1..], r)
  }

  function Failures(ops: seq<KeyOp>): nat {
    if ops == [] then 0 else (if ops[0].Fail? then 1 else 0) + Failures(ops[1..])
  }

  /** No operation comes later than `reset` after the failure before it. */
  predicate Close(last: Option<int>, ops: seq<KeyOp>, reset: int)
    decreases |ops|
  {
    ops != [] ==>
      && (last.Some? ==> ops[0].now - last.value <= reset)
      && Close(if ops[0].Fail? then Some(ops[0].now) else last, ops[1..], reset)
  }

  lemma {:induction false} CountsUpToTheThreshold(s: Lock, ops: seq<KeyOp>, r: Rule)
    requires !s.locked && s.lockTime.None? && s.failures >= 0
    requires Close(s.lastAttempt, ops, r.reset) && s.failures + Failures(ops) < r.max
    ensures var t := AfterKeyOps(s, ops, r);
            !t.locked && t.lockTime.None? && t.failures == s.failures + Failures(ops)
    decreases |ops|
  {
    if ops != [] {
      CountsUpToTheThreshold(AfterKeyOp(s, ops[0], r), ops[1..], r);
    }
  }

  /** A fresh key whose failures are close together is unlocked through failure number max - 1, and failure number max
      locks it until the lock time. */
  lemma LocksExactlyAtTheThreshold(ops: seq<KeyOp>, r: Rule, now: int)
    requires r.max >= 1 && Close(None, ops + [Fail(now)], r.reset) && Failures(ops) < r.max
    ensures var s := AfterKeyOps(FRESH, ops, r);
            var t := Updated(s, now, false, r);
      && !s.locked && !Checked(s, now, r.reset).1
      && (t.locked <==> Failures(ops) + 1 == r.max)
      && (t.locked ==> t.lockTime == Some(now + r.lock))
  {
    ClosePrefix(None, ops, [Fail(now)], r.reset);
    CountsUpToTheThreshold(FRESH, ops, r);
  }

  lemma {:induction false} ClosePrefix(last: Option<int>, ops: seq<KeyOp>, rest: seq<KeyOp>, reset: int)
    requires Close(last, ops + rest, reset)
    ensures Close(last, ops, reset)
    decreases |ops|
  {
    if ops != [] {
      assert (ops + rest)[1..] == ops[1..] + rest;
      ClosePrefix(if ops[0].Fail? then Some(ops[0].now) else last, ops[1..], rest, reset);
    }
  }

  // ---------------------------------------------------------------- duration

  /** What can happen to a locked key without a further login attempt. */
  datatype IdleOp = Look(now: int) | Sweep(now: int)

  /** A key as a map entry: None once swept. */
  function AfterIdleOp(k: Option<Lock>, op: IdleOp, reset: int, expiration: int): Option<Lock> {
    match (k, op)
    case (None, _) => None
    case (Some(s), Look(now)) => Some(Checked(s, now, reset).0)
    case (Some(s), Sweep(now)) => if Survives(s, now, reset, expiration) then Some(s) else None
  }

  function AfterIdleOps(k: Option<Lock>, ops: seq<IdleOp>, reset: int, expiration: int): Option<Lock>
    decreases |ops|
  {
    if ops == [] then k else AfterIdleOps(AfterIdleOp(k, ops[0], reset, expiration), ops[1..], reset, expiration)
  }

  function Refuses(k: Option<Lock>, now: int, reset: int): bool {
    k.Some? && Checked(k.value, now, reset).1
  }

  function Later(x: int, y: int): int { if x < y then y else x }

  /** Checks come in the order of their times. The sweeper reads its time before it gets the mutex, so it may be
      older. */
  predicate Chronological(from: int, ops: seq<IdleOp>, to: int)
    decreases |ops|
  {
    if ops == [] then from <= to
    else (ops[0].Look? ==> from <= ops[0].now) && Chronological(Later(from, ops[0].now), ops[1..], to)
  }

  /** Every check of a key locked at `at` refuses up to the lock time and admits after it, whatever checks and sweeps
      come in between. */
  ghost predicate LockLasts(s: Lock, at: int, r: Rule, expiration: int) {
    forall ops: seq<IdleOp>, now: int :: Chronological(at, ops, now) ==>
      (Refuses(AfterIdleOps(Some(s), ops, r.reset, expiration), now, r.reset) <==> now <= at + r.lock)
  }

  lemma {:induction false} IdleOpsKeepTheLock(s: Lock, at: int, from: int, ops: seq<IdleOp>, now: int, r: Rule,
                                              expiration: int)
    requires s.locked && s.lastAttempt == Some(at) && s.lockTime == Some(at + r.lock)
    requires at <= from && Chronological(from, ops, now)
    requires r.lock <= r.reset && r.lock <= expiration
    ensures var k := AfterIdleOps(Some(s), ops, r.reset, expiration);
            (now <= at + r.lock ==> k == Some(s)) && (now > at + r.lock ==> k.None? || Dead(k.value, now, r.reset))
    decreases |ops|
  {
    if ops != [] {
      var next := Later(from, ops[0].now);
      LaterThan(next, ops[1..], now);
      if ops[0].now <= at + r.lock {
        IdleOpsKeepTheLock(s, at, next, ops[1..], now, r, expiration);
      } else {
        DeadThroughIdleOps(AfterIdleOp(Some(s), ops[0], r.reset, expiration), next, ops[1..], now, r.reset, expiration);
      }
    }
  }

  lemma {:induction false} LaterThan(from: int, ops: seq<IdleOp>, now: int)
    requires Chronological(from, ops, now)
    ensures from <= now
    decreases |ops|
  {
    if ops != [] {
      LaterThan(Later(from, ops[0].now), ops[1..], now);
    }
  }

  /** Once a key's check is false it stays false through any checks and sweeps. */
  lemma {:induction false} DeadThroughIdleOps(k: Option<Lock>, from: int, ops: seq<IdleOp>, now: int, reset: int,
                                              expiration: int)
    requires k.None? || Dead(k.value, from, reset)
    requires Chronological(from, ops, now)
    ensures var l := AfterIdleOps(k, ops, reset, expiration);
            (l.None? || Dead(l.value, now, reset)) && !Refuses(l, now, reset)
    decreases |ops|
  {
    if ops != [] {
      DeadThroughIdleOps(AfterIdleOp(k, ops[0], reset, expiration), Later(from, ops[0].now), ops[1..], now, reset,
                         expiration);
    }
  }

  /** A lock lasts its full time exactly when that time is within both the reset window and the expiration. */
  lemma LockLastsExactlyWhen(s: Lock, at: int, r: Rule, expiration: int)
    requires s.locked && s.lastAttempt == Some(at) && s.lockTime == Some(at + r.lock) && r.lock >= 0
    ensures LockLasts(s, at, r, expiration) <==> r.lock <= r.reset && r.lock <= expiration
  {
    if r.lock <= r.reset && r.lock <= expiration {
      forall ops: seq<IdleOp>, now: int | Chronological(at, ops, now)
        ensures Refuses(AfterIdleOps(Some(s), ops, r.reset, expiration), now, r.reset) <==> now <= at + r.lock
      {
        LaterThan(at, ops, now);
        IdleOpsKeepTheLock(s, at, at, ops, now, r, expiration);
      }
    } else if r.lock > r.reset {
      var now := at + if r.reset < 0 then 0 else r.reset + 1;
      assert Chronological(at, [], now);
      assert !Refuses(AfterIdleOps(Some(s), [], r.reset, expiration), now, r.reset);
    } else {
      var now := at + if expiration < 0 then 0 else expiration + 1;
      var ops := [Sweep(now)];
      assert ops[1..] == [] && Chronological(at, ops, now);
      assert AfterIdleOps(Some(s), ops, r.reset, expiration) == AfterIdleOp(Some(s), ops[0], r.reset, expiration);
      assert !Refuses(AfterIdleOps(Some(s), ops, r.reset, expiration), now, r.reset);
    }
  }

  // ---------------------------------------------------------------- the three key spaces

  type Space = map<string, Lock>

  datatype Locks = Locks(ip: Space, user: Space, ipUser: map<string, Space>)

  function Entry(m: Space, key: string): Option<Lock> { if key in m then Some(m[key]) else None }

  function PairEntry(m: map<string, Space>, user: string, ip: string): Option<Lock> {
    if user in m then Entry(m[user], ip) else None
  }

  /** One check of a key: an existing entry may expire in place. */
  function CheckEntry(m: Space, key: string, now: int, reset: int): (Space, bool) {
    if key !in m then (m, false)
    else var (s, refused) := Checked(m[key], now, reset); (m[key := s], refused)
  }

  function CheckPair(m: map<string, Space>, user: string, ip: string, now: int, reset: int)
    : (map<string, Space>, bool)
  {
    if user !in m || ip !in m[user] then (m, false)
    else var (inner, refused) := CheckEntry(m[user], ip, now, reset); (m[user := inner], refused)
  }

  /** One request to CheckLocked. `ip` is None when the remote address has no port to split off. */
  datatype Request = Request(user: string, ip: Option<string>, whitelisted: bool, now: int)

  /** CheckLocked: the states it leaves and whether it admits. The spaces are tried in turn up to the first refusal,
      a space with `max` of zero is skipped, and so are the user spaces for the empty user name. */
  function CheckLocked(c: Config, l: Locks, q: Request): (Locks, bool) {
    if !c.enabled || q.ip.None? || q.whitelisted then (l, true) else
    var (ip, ipRefused) := if c.ip.max > 0 then CheckEntry(l.ip, q.ip.value, q.now, c.ip.reset) else (l.ip, false);
    if ipRefused then (l.(ip := ip), false) else
    var (user, userRefused) :=
      if c.user.max > 0 && q.user != "" then CheckEntry(l.user, q.user, q.now, c.user.reset) else (l.user, false);
    if userRefused then (l.(ip := ip, user := user), false) else
    var (ipUser, pairRefused) :=
      if c.ipUser.max > 0 && q.user != "" then CheckPair(l.ipUser, q.user, q.ip.value, q.now, c.ipUser.reset)
      else (l.ipUser, false);
    (Locks(ip, user, ipUser), !pairRefused)
  }

  function UpdateEntry(m: Space, key: string, now: int, success: bool, r: Rule): Space {
    m[key := Updated(if key in m then m[key] else FRESH, now, success, r)]
  }

  function UpdatedPair(l: Locks, user: string, ip: string, now: int, success: bool, r: Rule): Locks {
    l.(ipUser := l.ipUser[user := UpdateEntry(if user in l.ipUser then l.ipUser[user] else map[], ip, now, success, r)])
  }

  /** UpdateLoginStatus. */
  function UpdateLoginStatus(c: Config, l: Locks, user: string, ip: Option<string>, now: int, success: bool): Locks {
    if ip.None? then l else
    var ips := UpdateEntry(l.ip, ip.value, now, success, c.ip);
    if user == "" then l.(ip := ips)
    else UpdatedPair(Locks(ips, UpdateEntry(l.user, user, now, success, c.user), l.ipUser),
                     user, ip.value, now, success, c.ipUser)
  }

  function SweptSpace(m: Space, now: int, reset: int, expiration: int): Space {
    map k | k in m && Survives(m[k], now, reset, expiration) :: m[k]
  }

  /** A user goes with the last of its addresses. */
  predicate Stays(inner: Space, now: int, reset: int, expiration: int) {
    inner == map[] || SweptSpace(inner, now, reset, expiration) != map[]
  }

  function SweptPairs(m: map<string, Space>, now: int, reset: int, expiration: int): map<string, Space> {
    map u | u in m && Stays(m[u], now, reset, expiration) :: SweptSpace(m[u], now, reset, expiration)
  }

  /** CleanupExpiredLocks. */
  function Swept(c: Config, l: Locks, now: int): Locks {
    Locks(SweptSpace(l.ip, now, c.ip.reset, c.expiration), SweptSpace(l.user, now, c.user.reset, c.expiration),
          SweptPairs(l.ipUser, now, c.ipUser.reset, c.expiration))
  }

  // ---------------------------------------------------------------- sweeping is invisible

  /** What every state is like: a lock ends at most the lock time after the last attempt, which is not in the future. */
  predicate Timed(s: Lock, r: Rule, now: int) {
    && (s.lastAttempt.Some? ==> s.lastAttempt.value <= now)
    && (s.locked ==> s.lastAttempt.Some? && s.lockTime.Some? && s.lockTime.value <= s.lastAttempt.value + r.lock)
  }

  predicate TimedSpace(m: Space, r: Rule, now: int) { forall k :: k in m ==> Timed(m[k], r, now) }

  predicate TimedPairs(m: map<string, Space>, r: Rule, now: int) { forall u :: u in m ==> TimedSpace(m[u], r, now) }

  predicate TimedLocks(c: Config, l: Locks, now: int) {
    TimedSpace(l.ip, c.ip, now) && TimedSpace(l.user, c.user, now) && TimedPairs(l.ipUser, c.ipUser, now)
  }

  lemma TimedLater(c: Config, l: Locks, now: int, later: int)
    requires TimedLocks(c, l, now) && now <= later
    ensures TimedLocks(c, l, later)
  {}

  lemma TimedAfterSweep(c: Config, l: Locks, now: int, sweep: int)
    requires TimedLocks(c, l, now)
    ensures TimedLocks(c, Swept(c, l, sweep), now)
  {}

  lemma TimedAfterCheck(c: Config, l: Locks, q: Request)
    requires TimedLocks(c, l, q.now)
    ensures TimedLocks(c, CheckLocked(c, l, q).0, q.now)
  {
    if q.ip.Some? {
      CheckLockedMayCheck(c, l, q);
    }
  }

  lemma TimedEntry(m: Space, key: string, now: int, success: bool, r: Rule)
    requires TimedSpace(m, r, now)
    ensures TimedSpace(UpdateEntry(m, key, now, success, r), r, now)
  {}

  lemma TimedAfterUpdate(c: Config, l: Locks, user: string, ip: Option<string>, now: int, success: bool)
    requires TimedLocks(c, l, now)
    ensures TimedLocks(c, UpdateLoginStatus(c, l, user, ip, now, success), now)
  {
    if ip.Some? {
      TimedEntry(l.ip, ip.value, now, success, c.ip);
      TimedEntry(l.user, user, now, success, c.user);
      TimedEntry(if user in l.ipUser then l.ipUser[user] else map[], ip.value, now, success, c.ipUser);
    }
  }

  /** The sweeper drops no key that a check would still refuse: by then its reset window or its lock is over, if they
      last at all. */
  predicate PatientRule(r: Rule, expiration: int) {
    r.reset <= Later(expiration, -1) || r.lock <= Later(expiration, -1)
  }

  /** Keys of this kind are checked at all. */
  predicate On(c: Config, r: Rule) { c.enabled && r.max > 0 }

  predicate Patient(c: Config) {
    && (On(c, c.ip) ==> PatientRule(c.ip, c.expiration))
    && (On(c, c.user) ==> PatientRule(c.user, c.expiration))
    && (On(c, c.ipUser) ==> PatientRule(c.ipUser, c.expiration))
  }

  lemma SweptIsDead(s: Lock, r: Rule, expiration: int, sweep: int, now: int)
    requires Timed(s, r, now) && PatientRule(r, expiration) && sweep <= now && !Survives(s, sweep, r.reset, expiration)
    ensures Dead(s, now, r.reset)
  {
  }

  /** No check of the entry refuses from now on, until its next update. */
  predicate Gone(e: Option<Lock>, now: int, reset: int) { e.None? || Dead(e.value, now, reset) }

  /** An entry and its counterpart in a manager that was swept at other times. */
  predicate Alike(a: Option<Lock>, b: Option<Lock>, now: int, reset: int) {
    a == b || (Gone(a, now, reset) && Gone(b, now, reset))
  }

  /** The addresses and users of the updates so far. A pair is updated only with both. */
  datatype Touched = Touched(ips: set<string>, users: set<string>)

  ghost predicate AlikeSpaces(a: Space, b: Space, now: int, reset: int, touched: set<string>) {
    forall k :: k !in touched ==> Alike(Entry(a, k), Entry(b, k), now, reset)
  }

  ghost predicate AlikePairs(a: map<string, Space>, b: map<string, Space>, now: int, reset: int, t: Touched) {
    forall u, k :: !(u in t.users && k in t.ips) ==> Alike(PairEntry(a, u, k), PairEntry(b, u, k), now, reset)
  }

  /** Whatever is checked and was not updated is alike. */
  ghost predicate AlikeLocks(c: Config, a: Locks, b: Locks, now: int, t: Touched) {
    && (On(c, c.ip) ==> AlikeSpaces(a.ip, b.ip, now, c.ip.reset, t.ips))
    && (On(c, c.user) ==> AlikeSpaces(a.user, b.user, now, c.user.reset, t.users))
    && (On(c, c.ipUser) ==> AlikePairs(a.ipUser, b.ipUser, now, c.ipUser.reset, t))
  }

  // Sweeps.

  lemma SweptSpaceIsAlike(a: Space, b: Space, now: int, sweep: int, r: Rule, expiration: int, touched: set<string>)
    requires AlikeSpaces(a, b, now, r.reset, touched) && TimedSpace(b, r, now) && PatientRule(r, expiration)
    requires sweep <= now
    ensures AlikeSpaces(a, SweptSpace(b, sweep, r.reset, expiration), now, r.reset, touched)
  {
    forall k | k !in touched
      ensures Alike(Entry(a, k), Entry(SweptSpace(b, sweep, r.reset, expiration), k), now, r.reset)
    {
      assert Alike(Entry(a, k), Entry(b, k), now, r.reset);
      if k in b && !Survives(b[k], sweep, r.reset, expiration) {
        SweptIsDead(b[k], r, expiration, sweep, now);
      }
    }
  }

  lemma SweptPairEntry(m: map<string, Space>, sweep: int, reset: int, expiration: int, u: string, k: string)
    ensures PairEntry(SweptPairs(m, sweep, reset, expiration), u, k) ==
            var e := PairEntry(m, u, k); if e.Some? && Survives(e.value, sweep, reset, expiration) then e else None
  {
    if u in m && k in m[u] && Survives(m[u][k], sweep, reset, expiration) {
      assert k in SweptSpace(m[u], sweep, reset, expiration);
    }
  }

  lemma SweptPairsAreAlike(a: map<string, Space>, b: map<string, Space>, now: int, sweep: int, r: Rule, expiration: int,
                           t: Touched)
    requires AlikePairs(a, b, now, r.reset, t) && TimedPairs(b, r, now) && PatientRule(r, expiration) && sweep <= now
    ensures AlikePairs(a, SweptPairs(b, sweep, r.reset, expiration), now, r.reset, t)
  {
    forall u, k | !(u in t.users && k in t.ips)
      ensures Alike(PairEntry(a, u, k), PairEntry(SweptPairs(b, sweep, r.reset, expiration), u, k), now, r.reset)
    {
      assert Alike(PairEntry(a, u, k), PairEntry(b, u, k), now, r.reset);
      SweptPairEntry(b, sweep, r.reset, expiration, u, k);
      if u in b && k in b[u] && !Survives(b[u][k], sweep, r.reset, expiration) {
        SweptIsDead(b[u][k], r, expiration, sweep, now);
      }
    }
  }

  lemma SweptIsAlike(c: Config, a: Locks, b: Locks, now: int, sweep: int, t: Touched)
    requires AlikeLocks(c, a, b, now, t) && TimedLocks(c, b, now) && Patient(c) && sweep <= now
    ensures AlikeLocks(c, a, Swept(c, b, sweep), now, t)
  {
    if On(c, c.ip) {
      SweptSpaceIsAlike(a.ip, b.ip, now, sweep, c.ip, c.expiration, t.ips);
    }
    if On(c, c.user) {
      SweptSpaceIsAlike(a.user, b.user, now, sweep, c.user, c.expiration, t.users);
    }
    if On(c, c.ipUser) {
      SweptPairsAreAlike(a.ipUser, b.ipUser, now, sweep, c.ipUser, c.expiration, t);
    }
  }

  // Time.

  lemma AlikeSpacesLater(a: Space, b: Space, now: int, later: int, reset: int, touched: set<string>)
    requires AlikeSpaces(a, b, now, reset, touched) && now <= later
    ensures AlikeSpaces(a, b, later, reset, touched)
  {
    forall k | k !in touched ensures Alike(Entry(a, k), Entry(b, k), later, reset) {
      assert Alike(Entry(a, k), Entry(b, k), now, reset);
    }
  }

  lemma AlikePairsLater(a: map<string, Space>, b: map<string, Space>, now: int, later: int, reset: int, t: Touched)
    requires AlikePairs(a, b, now, reset, t) && now <= later
    ensures AlikePairs(a, b, later, reset, t)
  {
    forall u, k | !(u in t.users && k in t.ips) ensures Alike(PairEntry(a, u, k), PairEntry(b, u, k), later, reset) {
      assert Alike(PairEntry(a, u, k), PairEntry(b, u, k), now, reset);
    }
  }

  lemma AlikeLater(c: Config, a: Locks, b: Locks, now: int, later: int, t: Touched)
    requires AlikeLocks(c, a, b, now, t) && now <= later
    ensures AlikeLocks(c, a, b, later, t)
  {
    if On(c, c.ip) {
      AlikeSpacesLater(a.ip, b.ip, now, later, c.ip.reset, t.ips);
    }
    if On(c, c.user) {
      AlikeSpacesLater(a.user, b.user, now, later, c.user.reset, t.users);
    }
    if On(c, c.ipUser) {
      AlikePairsLater(a.ipUser, b.ipUser, now, later, c.ipUser.reset, t);
    }
  }

  // Checks. A request that is refused early in one manager and not in the other checks other keys there, so each key
  // may or may not be looked at.

  function Seen(e: Option<Lock>, now: int, reset: int): Option<Lock> {
    if e.Some? then Some(Checked(e.value, now, reset).0) else None
  }

  lemma SeenStaysAlike(a: Option<Lock>, b: Option<Lock>, a': Option<Lock>, b': Option<Lock>, now: int, reset: int)
    requires Alike(a, b, now, reset)
    requires (a' == a || a' == Seen(a, now, reset)) && (b' == b || b' == Seen(b, now, reset))
    ensures Alike(a', b', now, reset)
  {
  }

  predicate MayCheck(m: Space, m': Space, key: string, now: int, reset: int) {
    m' == m || m' == CheckEntry(m, key, now, reset).0
  }

  predicate MayCheckPair(m: map<string, Space>, m': map<string, Space>, u: string, k: string, now: int, reset: int) {
    m' == m || m' == CheckPair(m, u, k, now, reset).0
  }

  lemma CheckedSpacesAreAlike(a: Space, b: Space, a': Space, b': Space, key: string, now: int, reset: int,
                              touched: set<string>)
    requires AlikeSpaces(a, b, now, reset, touched) && MayCheck(a, a', key, now, reset)
    requires MayCheck(b, b', key, now, reset)
    ensures AlikeSpaces(a', b', now, reset, touched)
  {
    forall k | k !in touched ensures Alike(Entry(a', k), Entry(b', k), now, reset) {
      assert Alike(Entry(a, k), Entry(b, k), now, reset);
      SeenStaysAlike(Entry(a, k), Entry(b, k), Entry(a', k), Entry(b', k), now, reset);
    }
  }

  lemma CheckedPairsAreAlike(a: map<string, Space>, b: map<string, Space>, a': map<string, Space>,
                             b': map<string, Space>, user: string, ip: string, now: int, reset: int, t: Touched)
    requires AlikePairs(a, b, now, reset, t)
    requires MayCheckPair(a, a', user, ip, now, reset) && MayCheckPair(b, b', user, ip, now, reset)
    ensures AlikePairs(a', b', now, reset, t)
  {
    forall u, k | !(u in t.users && k in t.ips)
      ensures Alike(PairEntry(a', u, k), PairEntry(b', u, k), now, reset)
    {
      assert Alike(PairEntry(a, u, k), PairEntry(b, u, k), now, reset);
      SeenStaysAlike(PairEntry(a, u, k), PairEntry(b, u, k), PairEntry(a', u, k), PairEntry(b', u, k), now, reset);
    }
  }

  lemma CheckLockedMayCheck(c: Config, l: Locks, q: Request)
    requires q.ip.Some?
    ensures var m := CheckLocked(c, l, q).0;
      && MayCheck(l.ip, m.ip, q.ip.value, q.now, c.ip.reset)
      && MayCheck(l.user, m.user, q.user, q.now, c.user.reset)
      && MayCheckPair(l.ipUser, m.ipUser, q.user, q.ip.value, q.now, c.ipUser.reset)
  {
  }

  lemma CheckLockedIsAlike(c: Config, a: Locks, b: Locks, q: Request, t: Touched)
    requires AlikeLocks(c, a, b, q.now, t)
    ensures AlikeLocks(c, CheckLocked(c, a, q).0, CheckLocked(c, b, q).0, q.now, t)
  {
    if q.ip.Some? {
      var ip, m, n := q.ip.value, CheckLocked(c, a, q).0, CheckLocked(c, b, q).0;
      CheckLockedMayCheck(c, a, q);
      CheckLockedMayCheck(c, b, q);
      if On(c, c.ip) {
        CheckedSpacesAreAlike(a.ip, b.ip, m.ip, n.ip, ip, q.now, c.ip.reset, t.ips);
      }
      if On(c, c.user) {
        CheckedSpacesAreAlike(a.user, b.user, m.user, n.user, q.user, q.now, c.user.reset, t.users);
      }
      if On(c, c.ipUser) {
        CheckedPairsAreAlike(a.ipUser, b.ipUser, m.ipUser, n.ipUser, q.user, ip, q.now, c.ipUser.reset, t);
      }
    }
  }

  /** None of the keys that CheckLocked consults for the request was updated. */
  predicate Untouched(q: Request, t: Touched) {
    q.ip.None? || q.whitelisted || (q.ip.value !in t.ips && (q.user == "" || q.user !in t.users))
  }

  lemma SameRefusal(a: Space, b: Space, key: string, now: int, reset: int)
    requires Alike(Entry(a, key), Entry(b, key), now, reset)
    ensures CheckEntry(a, key, now, reset).1 == CheckEntry(b, key, now, reset).1
  {
  }

  lemma SamePairRefusal(a: map<string, Space>, b: map<string, Space>, u: string, k: string, now: int, reset: int)
    requires Alike(PairEntry(a, u, k), PairEntry(b, u, k), now, reset)
    ensures CheckPair(a, u, k, now, reset).1 == CheckPair(b, u, k, now, reset).1
  {
  }

  /** CheckLocked admits exactly when no space that it consults refuses. */
  lemma AdmitsExactlyWhen(c: Config, l: Locks, q: Request)
    ensures CheckLocked(c, l, q).1 <==>
      || !c.enabled || q.ip.None? || q.whitelisted
      || (&& (c.ip.max > 0 ==> !CheckEntry(l.ip, q.ip.value, q.now, c.ip.reset).1)
          && (c.user.max > 0 && q.user != "" ==> !CheckEntry(l.user, q.user, q.now, c.user.reset).1)
          && (c.ipUser.max > 0 && q.user != "" ==> !CheckPair(l.ipUser, q.user, q.ip.value, q.now, c.ipUser.reset).1))
  {
  }

  lemma SameVerdict(c: Config, a: Locks, b: Locks, q: Request, t: Touched)
    requires AlikeLocks(c, a, b, q.now, t) && Untouched(q, t)
    ensures CheckLocked(c, a, q).1 == CheckLocked(c, b, q).1
  {
    AdmitsExactlyWhen(c, a, q);
    AdmitsExactlyWhen(c, b, q);
    if c.enabled && q.ip.Some? && !q.whitelisted {
      if On(c, c.ip) {
        SameRefusal(a.ip, b.ip, q.ip.value, q.now, c.ip.reset);
      }
      if On(c, c.user) && q.user != "" {
        SameRefusal(a.user, b.user, q.user, q.now, c.user.reset);
      }
      if On(c, c.ipUser) && q.user != "" {
        SamePairRefusal(a.ipUser, b.ipUser, q.user, q.ip.value, q.now, c.ipUser.reset);
      }
    }
  }

  // Updates.

  function Touching(t: Touched, user: string, ip: Option<string>): Touched {
    if ip.None? then t else Touched(t.ips + {ip.value}, if user == "" then t.users else t.users + {user})
  }

  lemma UpdatedSpacesAreAlike(a: Space, b: Space, key: string, now: int, success: bool, r: Rule, touched: set<string>)
    requires AlikeSpaces(a, b, now, r.reset, touched)
    ensures AlikeSpaces(UpdateEntry(a, key, now, success, r), UpdateEntry(b, key, now, success, r), now, r.reset,
                        touched + {key})
  {
    forall k | k !in touched + {key}
      ensures Alike(Entry(UpdateEntry(a, key, now, success, r), k), Entry(UpdateEntry(b, key, now, success, r), k), now,
                    r.reset)
    {
      assert Alike(Entry(a, k), Entry(b, k), now, r.reset);
    }
  }

  lemma UpdatedPairsAreAlike(a: Locks, b: Locks, user: string, ip: string, now: int, success: bool, r: Rule, t: Touched)
    requires AlikePairs(a.ipUser, b.ipUser, now, r.reset, t)
    ensures AlikePairs(UpdatedPair(a, user, ip, now, success, r).ipUser,
                       UpdatedPair(b, user, ip, now, success, r).ipUser,
                       now, r.reset, Touched(t.ips + {ip}, t.users + {user}))
  {
    var a', b' := UpdatedPair(a, user, ip, now, success, r).ipUser, UpdatedPair(b, user, ip, now, success, r).ipUser;
    forall u, k | !(u in t.users + {user} && k in t.ips + {ip})
      ensures Alike(PairEntry(a', u, k), PairEntry(b', u, k), now, r.reset)
    {
      assert Alike(PairEntry(a.ipUser, u, k), PairEntry(b.ipUser, u, k), now, r.reset);
    }
  }

  lemma UpdatedParts(c: Config, l: Locks, user: string, ip: string, now: int, success: bool)
    ensures var m := UpdateLoginStatus(c, l, user, Some(ip), now, success);
      && m.ip == UpdateEntry(l.ip, ip, now, success, c.ip)
      && m.user == (if user == "" then l.user else UpdateEntry(l.user, user, now, success, c.user))
      && m.ipUser == (if user == "" then l.ipUser else UpdatedPair(l, user, ip, now, success, c.ipUser).ipUser)
  {}

  lemma UpdatedIsAlike(c: Config, a: Locks, b: Locks, user: string, ip: Option<string>, now: int, success: bool,
                       t: Touched)
    requires AlikeLocks(c, a, b, now, t)
    ensures AlikeLocks(c, UpdateLoginStatus(c, a, user, ip, now, success),
                       UpdateLoginStatus(c, b, user, ip, now, success), now, Touching(t, user, ip))
  {
    if ip.Some? {
      UpdatedParts(c, a, user, ip.value, now, success);
      UpdatedParts(c, b, user, ip.value, now, success);
      if On(c, c.ip) {
        UpdatedSpacesAreAlike(a.ip, b.ip, ip.value, now, success, c.ip, t.ips);
      }
      if On(c, c.user) && user != "" {
        UpdatedSpacesAreAlike(a.user, b.user, user, now, success, c.user, t.users);
      }
      if On(c, c.ipUser) && user != "" {
        UpdatedPairsAreAlike(a, b, user, ip.value, now, success, c.ipUser, t);
      }
    }
  }

  // Runs.

  datatype Op =
    | Ask(q: Request)
    | Login(user: string, ip: Option<string>, at: int, success: bool)
    | Clean(now: int)

  function When(op: Op): int { match op case Ask(q) => q.now case Login(_, _, at, _) => at case Clean(now) => now }

  /** Requests come in the order of their times; a sweep may act on an older one. */
  predicate Ordered(from: int, ops: seq<Op>)
    decreases |ops|
  {
    ops != [] ==> (ops[0].Clean? || from <= When(ops[0])) && Ordered(Later(from, When(ops[0])), ops[1..])
  }

  function After(c: Config, l: Locks, op: Op): Locks {
    match op
    case Ask(q) => CheckLocked(c, l, q).0
    case Login(user, ip, at, success) => UpdateLoginStatus(c, l, user, ip, at, success)
    case Clean(now) => Swept(c, l, now)
  }

  const EMPTY := Locks(map[], map[], map[])

  function AfterAll(c: Config, l: Locks, ops: seq<Op>): Locks
    decreases |ops|
  {
    if ops == [] then l else AfterAll(c, After(c, l, ops[0]), ops[1..])
  }

  function EndTime(from: int, ops: seq<Op>): int
    decreases |ops|
  {
    if ops == [] then from else EndTime(Later(from, When(ops[0])), ops[1..])
  }

  lemma TimedAfterOp(c: Config, l: Locks, from: int, op: Op)
    requires TimedLocks(c, l, from) && (op.Clean? || from <= When(op))
    ensures TimedLocks(c, After(c, l, op), Later(from, When(op)))
  {
    TimedLater(c, l, from, Later(from, When(op)));
    match op
    case Ask(q) => TimedAfterCheck(c, l, q);
    case Login(user, ip, at, success) => TimedAfterUpdate(c, l, user, ip, at, success);
    case Clean(now) => TimedAfterSweep(c, l, Later(from, now), now);
  }

  /** Every run keeps a lock's end within the lock time of the last attempt, which is not in the future. */
  lemma {:induction false} TimedIsKept(c: Config, l: Locks, from: int, before: seq<Op>, ops: seq<Op>)
    requires TimedLocks(c, l, from) && Ordered(from, before + ops)
    ensures TimedLocks(c, AfterAll(c, l, before), EndTime(from, before)) && Ordered(EndTime(from, before), ops)
    decreases |before|
  {
    if before == [] {
      assert before + ops == ops;
    } else {
      assert (before + ops)[1..] == before[1..] + ops;
      TimedAfterOp(c, l, from, before[0]);
      TimedIsKept(c, After(c, l, before[0]), Later(from, When(before[0])), before[1..], ops);
    }
  }

  /** The answers of CheckLocked to those requests of whose keys none has been updated since the start. */
  function Answers(c: Config, l: Locks, ops: seq<Op>, t: Touched): seq<bool>
    decreases |ops|
  {
    if ops == [] then []
    else match ops[0]
      case Ask(q) =>
        var (l', admit) := CheckLocked(c, l, q);
        (if Untouched(q, t) then [admit] else []) + Answers(c, l', ops[1..], t)
      case Login(user, ip, at, success) =>
        Answers(c, UpdateLoginStatus(c, l, user, ip, at, success), ops[1..], Touching(t, user, ip))
      case Clean(now) => Answers(c, Swept(c, l, now), ops[1..], t)
  }

  /** The same requests without a single sweep. */
  function Requests(ops: seq<Op>): seq<Op> {
    if ops == [] then [] else (if ops[0].Clean? then [] else [ops[0]]) + Requests(ops[1..])
  }

  lemma {:induction false} SameAnswers(c: Config, a: Locks, b: Locks, from: int, ops: seq<Op>, t: Touched)
    requires Patient(c) && AlikeLocks(c, a, b, from, t) && TimedLocks(c, b, from) && Ordered(from, ops)
    ensures Answers(c, a, Requests(ops), t) == Answers(c, b, ops, t)
    decreases |ops|
  {
    if ops != [] {
      var now := Later(from, When(ops[0]));
      AlikeLater(c, a, b, from, now, t);
      TimedLater(c, b, from, now);
      match ops[0] {
        case Ask(q) =>
          assert Requests(ops)[1..] == Requests(ops[1..]);
          CheckLockedIsAlike(c, a, b, q, t);
          TimedAfterCheck(c, b, q);
          if Untouched(q, t) {
            SameVerdict(c, a, b, q, t);
          }
          SameAnswers(c, CheckLocked(c, a, q).0, CheckLocked(c, b, q).0, now, ops[1..], t);
        case Login(user, ip, at, success) =>
          assert Requests(ops)[1..] == Requests(ops[1..]);
          UpdatedIsAlike(c, a, b, user, ip, at, success, t);
          TimedAfterUpdate(c, b, user, ip, at, success);
          SameAnswers(c, UpdateLoginStatus(c, a, user, ip, at, success),
                      UpdateLoginStatus(c, b, user, ip, at, success), now, ops[1..], Touching(t, user, ip));
        case Clean(sweep) =>
          assert Requests(ops) == Requests(ops[1..]);
          SweptIsAlike(c, a, b, now, sweep, t);
          TimedAfterSweep(c, b, now, sweep);
          SameAnswers(c, a, Swept(c, b, sweep), now, ops[1..], t);
      }
    }
  }

  const NOTHING := Touched({}, {})

  /** Sweeping is invisible before a key's next update: sweeps at any moments of a run of checks and logins change no
      answer to a request of whose address and user no login was recorded since the start of the run, whatever other
      addresses and users do. */
  lemma SweepingIsInvisible(c: Config, l: Locks, from: int, ops: seq<Op>)
    requires Patient(c) && TimedLocks(c, l, from) && Ordered(from, ops)
    ensures Answers(c, l, ops, NOTHING) == Answers(c, l, Requests(ops), NOTHING)
  {
    SameAnswers(c, l, l, from, ops, NOTHING);
  }

  /** At no point of any run of the manager do the sweeps that follow show before a key's next update. */
  ghost predicate InvisibleSweeps(c: Config) {
    forall from: int, before: seq<Op>, ops: seq<Op> :: Ordered(from, before + ops) ==>
      var l := AfterAll(c, EMPTY, before); Answers(c, l, ops, NOTHING) == Answers(c, l, Requests(ops), NOTHING)
  }

  // Failed logins at time 0, and a sweep when the last of them is older than the expiration.

  function FailedAtZero(r: Rule, n: nat): Lock {
    if n == 0 then FRESH else Updated(FailedAtZero(r, n - 1), 0, false, r)
  }

  lemma {:induction false} FailedIs(r: Rule, n: nat)
    requires r.max >= 1
    ensures var s := FailedAtZero(r, n);
      && s.failures == n && (n > 0 ==> s.lastAttempt == Some(0))
      && (n < r.max ==> !s.locked) && (n >= r.max ==> s.locked && s.lockTime == Some(r.lock))
  {
    if n > 0 {
      FailedIs(r, n - 1);
    }
  }

  function FailedLocks(c: Config, user: string, ip: string, n: nat): Locks {
    if n == 0 then EMPTY
    else Locks(map[ip := FailedAtZero(c.ip, n)], map[user := FailedAtZero(c.user, n)],
               map[user := map[ip := FailedAtZero(c.ipUser, n)]])
  }

  function FailedLogin(user: string, ip: string): Op { Login(user, Some(ip), 0, false) }

  function Repeat(op: Op, n: nat): seq<Op> {
    if n == 0 then [] else [op] + Repeat(op, n - 1)
  }

  lemma OneMoreEntry(key: string, r: Rule, n: nat)
    ensures UpdateEntry(if n == 0 then map[] else map[key := FailedAtZero(r, n)], key, 0, false, r)
            == map[key := FailedAtZero(r, n + 1)]
  {
    assert FailedAtZero(r, n + 1) == Updated(FailedAtZero(r, n), 0, false, r);
  }

  lemma OneMorePair(c: Config, user: string, ip: string, n: nat)
    ensures UpdatedPair(FailedLocks(c, user, ip, n), user, ip, 0, false, c.ipUser).ipUser
            == map[user := map[ip := FailedAtZero(c.ipUser, n + 1)]]
  {
    OneMoreEntry(ip, c.ipUser, n);
  }

  lemma OneMoreFailure(c: Config, user: string, ip: string, n: nat)
    requires user != ""
    ensures After(c, FailedLocks(c, user, ip, n), FailedLogin(user, ip)) == FailedLocks(c, user, ip, n + 1)
  {
    UpdatedParts(c, FailedLocks(c, user, ip, n), user, ip, 0, false);
    OneMoreEntry(ip, c.ip, n);
    OneMoreEntry(user, c.user, n);
    OneMorePair(c, user, ip, n);
  }

  lemma AfterFirst(c: Config, l: Locks, op: Op, ops: seq<Op>)
    ensures AfterAll(c, l, [op] + ops) == AfterAll(c, After(c, l, op), ops)
  {
    assert ([op] + ops)[1..] == ops;
  }

  /** If `op` leads from each state to the next, then a run of it leads from the first to the last. */
  lemma {:induction false} RepeatLeads(c: Config, op: Op, states: seq<Locks>)
    requires states != [] && forall i :: 0 < i < |states| ==> After(c, states[i - 1], op) == states[i]
    ensures AfterAll(c, states[0], Repeat(op, |states| - 1)) == states[|states| - 1]
    decreases |states|
  {
    if |states| > 1 {
      AfterFirst(c, states[0], op, Repeat(op, |states| - 2));
      var rest := states[1..];
      forall i | 0 < i < |rest| ensures After(c, rest[i - 1], op) == rest[i] {
        assert rest[i - 1] == states[i] && rest[i] == states[i + 1];
      }
      RepeatLeads(c, op, rest);
    }
  }

  /** `n` failures leave what `n` failures leave of each of the three keys. */
  lemma FailsLeave(c: Config, user: string, ip: string, n: nat)
    requires user != ""
    ensures AfterAll(c, EMPTY, Repeat(FailedLogin(user, ip), n)) == FailedLocks(c, user, ip, n)
  {
    var states := seq(n + 1, i requires i >= 0 => FailedLocks(c, user, ip, i));
    forall i | 0 < i < |states| ensures After(c, states[i - 1], FailedLogin(user, ip)) == states[i] {
      OneMoreFailure(c, user, ip, i - 1);
    }
    RepeatLeads(c, FailedLogin(user, ip), states);
  }

  lemma {:induction false} RepeatIsOrdered(op: Op, n: nat, rest: seq<Op>)
    requires When(op) == 0 && Ordered(0, rest)
    ensures Ordered(0, Repeat(op, n) + rest)
    decreases n
  {
    if n == 0 {
      assert Repeat(op, n) + rest == rest;
    } else {
      RepeatIsOrdered(op, n - 1, rest);
      assert (Repeat(op, n) + rest)[1..] == Repeat(op, n - 1) + rest;
    }
  }

  lemma {:induction false} LastAttemptIsZero(r: Rule, n: nat)
    requires n > 0
    ensures FailedAtZero(r, n).lastAttempt == Some(0)
  {}

  lemma SweepEmpties(c: Config, user: string, ip: string, n: nat, now: int)
    requires n > 0 && now > c.expiration
    ensures Swept(c, FailedLocks(c, user, ip, n), now) == EMPTY
  {
    LastAttemptIsZero(c.ip, n);
    LastAttemptIsZero(c.user, n);
    LastAttemptIsZero(c.ipUser, n);
    var l := FailedLocks(c, user, ip, n);
    assert SweptSpace(l.ip, now, c.ip.reset, c.expiration) == map[];
    assert SweptSpace(l.user, now, c.user.reset, c.expiration) == map[];
    assert SweptSpace(l.ipUser[user], now, c.ipUser.reset, c.expiration) == map[];
    assert ip in l.ipUser[user];
  }

  /** As many failures as lock a key whose reset window and lock time outlast the expiration: it still refuses then. */
  lemma LockOutlasts(r: Rule, expiration: int, now: int)
    requires r.max > 0 && !PatientRule(r, expiration) && now == Later(expiration, -1) + 1
    ensures Checked(FailedAtZero(r, r.max), now, r.reset).1
  {
    FailedIs(r, r.max);
  }

  lemma OneAnswer(c: Config, l: Locks, q: Request)
    ensures Answers(c, l, [Ask(q)], NOTHING) == [CheckLocked(c, l, q).1] && Requests([Ask(q)]) == [Ask(q)]
  {
    var ops := [Ask(q)];
    assert ops[1..] == [] && Untouched(q, NOTHING);
    assert Answers(c, CheckLocked(c, l, q).0, ops[1..], NOTHING) == [] && Requests(ops[1..]) == [];
  }

  /** A sweep and a question, and the question alone. */
  lemma SweepThenAsk(c: Config, l: Locks, q: Request)
    ensures var ops := [Clean(q.now), Ask(q)];
      && Ordered(q.now, ops) && Requests(ops) == [Ask(q)]
      && Answers(c, l, ops, NOTHING) == [CheckLocked(c, Swept(c, l, q.now), q).1]
      && Answers(c, l, Requests(ops), NOTHING) == [CheckLocked(c, l, q).1]
  {
    var ops := [Clean(q.now), Ask(q)];
    assert ops[1..] == [Ask(q)];
    OneAnswer(c, l, q);
    OneAnswer(c, Swept(c, l, q.now), q);
    assert Answers(c, l, ops, NOTHING) == Answers(c, Swept(c, l, q.now), ops[1..], NOTHING);
    assert Requests(ops) == Requests(ops[1..]);
  }

  /** Failed logins, a sweep and a question. */
  lemma FailSweepAsk(c: Config, n: nat, q: Request) returns (before: seq<Op>, ops: seq<Op>)
    requires n > 0 && q.user != "" && q.ip.Some? && q.now == Later(c.expiration, -1) + 1
    ensures Ordered(0, before + ops) && AfterAll(c, EMPTY, before) == FailedLocks(c, q.user, q.ip.value, n)
    ensures Answers(c, FailedLocks(c, q.user, q.ip.value, n), ops, NOTHING) == [true]
    ensures Answers(c, FailedLocks(c, q.user, q.ip.value, n), Requests(ops), NOTHING)
            == [CheckLocked(c, FailedLocks(c, q.user, q.ip.value, n), q).1]
  {
    before, ops := Repeat(FailedLogin(q.user, q.ip.value), n), [Clean(q.now), Ask(q)];
    FailsLeave(c, q.user, q.ip.value, n);
    SweepEmpties(c, q.user, q.ip.value, n, q.now);
    SweepThenAsk(c, FailedLocks(c, q.user, q.ip.value, n), q);
    AdmitsExactlyWhen(c, EMPTY, q);
    assert ops[1..] == [Ask(q)] && Ordered(q.now, [Ask(q)]);
    RepeatIsOrdered(FailedLogin(q.user, q.ip.value), n, ops);
  }

  /** Over all runs from the empty manager, sweeps are invisible exactly when, for each kind of key that is checked,
      the reset window or the lock time is within the expiration. */
  lemma InvisibleExactlyWhen(c: Config)
    ensures InvisibleSweeps(c) <==> Patient(c)
  {
    if Patient(c) {
      forall from: int, before: seq<Op>, ops: seq<Op> | Ordered(from, before + ops)
        ensures var l := AfterAll(c, EMPTY, before);
                Answers(c, l, ops, NOTHING) == Answers(c, l, Requests(ops), NOTHING)
      {
        TimedIsKept(c, EMPTY, from, before, ops);
        SweepingIsInvisible(c, AfterAll(c, EMPTY, before), EndTime(from, before), ops);
      }
    } else {
      var now := Later(c.expiration, -1) + 1;
      var q := Request("user", Some("192.0.2.1"), false, now);
      var r := if On(c, c.ip) && !PatientRule(c.ip, c.expiration) then c.ip
               else if On(c, c.user) && !PatientRule(c.user, c.expiration) then c.user else c.ipUser;
      LockOutlasts(r, c.expiration, now);
      AdmitsExactlyWhen(c, FailedLocks(c, "user", "192.0.2.1", r.max), q);
      var before, ops := FailSweepAsk(c, r.max, q);
      assert Ordered(0, before + ops);
    }
  }

  predicate OnlyAsks(ops: seq<Op>) { forall op :: op in ops ==> !op.Login? }

  lemma {:induction false} AllAsksAreAnswered(c: Config, l: Locks, ops: seq<Op>)
    requires OnlyAsks(ops)
    ensures |Answers(c, l, ops, NOTHING)| == |Requests(ops)|
    decreases |ops|
  {
    if ops != [] {
      assert ops[0] in ops && OnlyAsks(ops[1..]);
      match ops[0]
      case Ask(q) => AllAsksAreAnswered(c, CheckLocked(c, l, q).0, ops[1..]);
      case Clean(now) => AllAsksAreAnswered(c, Swept(c, l, now), ops[1..]);
    }
  }

  /** In particular, between two updates sweeps change no answer at all. */
  lemma SweepingBetweenUpdates(c: Config, l: Locks, from: int, ops: seq<Op>)
    requires Patient(c) && TimedLocks(c, l, from) && Ordered(from, ops) && OnlyAsks(ops)
    ensures Answers(c, l, ops, NOTHING) == Answers(c, l, Requests(ops), NOTHING)
    ensures |Answers(c, l, ops, NOTHING)| == |Requests(ops)|
  {
    SweepingIsInvisible(c, l, from, ops);
    AllAsksAreAnswered(c, l, ops);
  }

  predicate NoEmpty(m: map<string, Space>) { forall u :: u in m ==> m[u] != map[] }

  /** No user is left with an empty inner map. */
  predicate NoEmptyUser(l: Locks) { NoEmpty(l.ipUser) }

  /** Survivors are unmodified, the rest is gone, and no operation leaves a user without addresses. */
  lemma SweepKeepsSurvivors(c: Config, l: Locks, now: int, key: string, user: string)
    ensures Entry(Swept(c, l, now).ip, key) in {None, Entry(l.ip, key)}
    ensures Entry(Swept(c, l, now).user, key) in {None, Entry(l.user, key)}
    ensures PairEntry(Swept(c, l, now).ipUser, user, key) in {None, PairEntry(l.ipUser, user, key)}
    ensures PairEntry(Swept(c, l, now).ipUser, user, key).Some? <==>
            PairEntry(l.ipUser, user, key).Some?
            && Survives(PairEntry(l.ipUser, user, key).value, now, c.ipUser.reset, c.expiration)
    ensures NoEmptyUser(l) ==> NoEmptyUser(Swept(c, l, now))
  {
    var pair := PairEntry(l.ipUser, user, key);
    if pair.Some? && Survives(pair.value, now, c.ipUser.reset, c.expiration) {
      assert key in SweptSpace(l.ipUser[user], now, c.ipUser.reset, c.expiration);
    }
  }

  lemma CheckedPairsAreNonEmpty(m: map<string, Space>, user: string, ip: string, now: int, reset: int)
    requires NoEmpty(m)
    ensures NoEmpty(CheckPair(m, user, ip, now, reset).0)
  {
    var n := CheckPair(m, user, ip, now, reset).0;
    forall u | u in n ensures n[u] != map[] {
      var k :| k in m[u];
      assert k in n[u];
    }
  }

  lemma UpdatedPairsAreNonEmpty(l: Locks, user: string, ip: string, now: int, success: bool, r: Rule)
    requires NoEmpty(l.ipUser)
    ensures NoEmpty(UpdatedPair(l, user, ip, now, success, r).ipUser)
  {
    assert ip in UpdatedPair(l, user, ip, now, success, r).ipUser[user];
  }

  lemma NoEmptyUserIsKept(c: Config, l: Locks, q: Request, success: bool)
    requires NoEmptyUser(l)
    ensures NoEmptyUser(CheckLocked(c, l, q).0) && NoEmptyUser(UpdateLoginStatus(c, l, q.user, q.ip, q.now, success))
  {
    if q.ip.Some? {
      CheckLockedMayCheck(c, l, q);
      CheckedPairsAreNonEmpty(l.ipUser, q.user, q.ip.value, q.now, c.ipUser.reset);
      UpdatedPairsAreNonEmpty(l, q.user, q.ip.value, q.now, success, c.ipUser);
    }
  }
}
