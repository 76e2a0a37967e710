/** The login protocol and its one-time rule (section 5.2 of RFC 6238).

    LinkAuth checks a password and either opens a session or, when OTP has its own window, files a pending login.
    LinkAuth_otp fetches the pending login, checks the code and opens the session. Requests run concurrently: the
    steps of one may be separated by any others, and a sweeper drops old codes from the replay cache. A step is what
    runs under one mutex: the lock check, CheckOtp, the end of a request. */
module Login {
  import opened Wrappers
  import LM = LockManager

  /** The clock ticks in nanoseconds. */
  const SECOND: int := 1_000_000_000
  const TOTP_STEP: int := 30 * SECOND
  const EXPIRE: int := 60 * SECOND

  /** The TOTP time step of section 4.2 of RFC 6238. */
  function StepOf(t: nat): nat { t / TOTP_STEP }

  datatype User = User(otpSecret: string, disableOtp: bool)

  /** Fixed configuration. `totp` is the code of a secret in a time step; `pinOk` compares a password with the stored
      one; `local` says that every group uses the local user table; `lag` bounds the time between the two clock
      readings of CheckOtp. */
  datatype System = System(users: map<string, User>, alone: bool, local: bool, totp: (string, nat) -> string,
                           pinOk: (string, string) -> bool, lag: nat, locks: LM.Config)

  // ---------------------------------------------------------------- the replay cache

  type Cache = map<string, nat>

  function Key(name: string, otp: string): string { name + ":" + otp }

  /** CheckOtp: the cache it leaves and whether the code is accepted. The code is cached at `now`, also when it is
      wrong, and compared with the code of the step of `unix`, a later reading of the clock. */
  function CheckedOtp(sys: System, cache: Cache, name: string, otp: string, secret: string, now: nat, unix: nat)
    : (Cache, bool)
  {
    var key := Key(name, otp);
    if key in cache then (cache, false)
    else (cache[key := now], sys.totp(secret, StepOf(unix)) == otp)
  }

  /** One tick of the sweeper. */
  function SweptCache(cache: Cache, now: nat): Cache {
    map k | k in cache && now <= cache[k] + EXPIRE :: cache[k]
  }

  class OtpCache {
    var userOtp: Cache

    constructor ()
      ensures userOtp == map[]
    {
      userOtp := map[];
    }

    method CheckOtp(sys: System, name: string, otp: string, secret: string, now: nat, unix: nat) returns (verify: bool)
      modifies this
      ensures (userOtp, verify) == CheckedOtp(sys, old(userOtp), name, otp, secret, now, unix)
    {
      var key := Key(name, otp);
      if key in userOtp {
        return false;
      }
      userOtp := userOtp[key := now];
      verify := sys.totp(secret, StepOf(unix)) == otp;
    }

    /** The deletion loop of the sweeper goroutine; the keys come in no particular order. */
    method Sweep(now: nat)
      modifies this
      ensures userOtp == SweptCache(old(userOtp), now)
    {
      var todo := userOtp.Keys;
      while todo != {}
        invariant todo <= userOtp.Keys <= old(userOtp).Keys
        invariant forall k :: k in userOtp ==> userOtp[k] == old(userOtp)[k]
        invariant forall k :: k in old(userOtp) && k !in todo ==> (k in userOtp <==> now <= old(userOtp)[k] + EXPIRE)
        decreases |todo|
      {
        var k :| k in todo;
        todo := todo - {k};
        if now > userOtp[k] + EXPIRE {
          userOtp := userOtp - {k};
        }
      }
    }
  }

  // ---------------------------------------------------------------- the protocol

  /** A login that has passed its password and waits for its code. */
  datatype Pending = Pending(user: string, secret: string)

  /** How far a request has come. LinkAuth: past the lock check with this password; past CheckUser, with the time a code
      inside the password was accepted. LinkAuth_otp: its pending login is fetched; past the lock check; its code was
      accepted at this time; its session is created. */
  datatype Phase =
    | Entered(pwd: string) | Judged(within: Option<nat>)
    | Fetched | Admitted | Passed(at: nat) | Created
    | Over

  /** One request of LinkAuth or, with the id of its pending login, of LinkAuth_otp. */
  datatype Request = Request(sid: string, pending: Pending, phase: Phase)

  /** A VPN session that was opened, with the time its code was accepted if it needed one. */
  datatype VpnSession = VpnSession(user: string, at: Option<nat>)

  datatype State = State(cache: Cache, store: map<string, Pending>, requests: map<nat, Request>,
                         sessions: seq<VpnSession>, locks: LM.Locks, clock: nat)

  /** Where a login request comes from, as the lock manager sees it. */
  datatype Peer = Peer(ip: Option<string>, whitelisted: bool)

  datatype Step =
    | Enter(id: nat, user: string, pwd: string, peer: Peer, now: nat)
    | Judge(id: nat, rowOk: bool, foreignOk: bool, peer: Peer, now: nat, unix: nat)
    | Finish(id: nat, sid: string, peer: Peer, now: nat)
    | Fetch(id: nat, sid: string)
    | BadBody(id: nat)
    | Gate(id: nat, peer: Peer, now: nat)
    | Verify(id: nat, otp: string, peer: Peer, now: nat, unix: nat)
    | Create(id: nat, peer: Peer, now: nat)
    | Forget(id: nat)
    | Sweep(now: nat)

  /** Requests read the clock in the order of their steps. The sweeper reads it before it gets the mutex, so its time
      may be any older one. */
  predicate Enabled(sys: System, st: State, s: Step) {
    match s
    case Enter(id, _, _, _, now) => id !in st.requests && st.clock <= now
    case Judge(id, _, _, _, now, unix) =>
      id in st.requests && st.requests[id].phase.Entered? && st.clock <= now <= unix <= now + sys.lag
    case Finish(id, _, _, now) => id in st.requests && st.requests[id].phase.Judged? && st.clock <= now
    case Fetch(id, sid) => id !in st.requests && sid in st.store
    case BadBody(id) => id in st.requests && st.requests[id].phase.Fetched?
    case Gate(id, _, now) => id in st.requests && st.requests[id].phase.Fetched? && st.clock <= now
    case Verify(id, _, _, now, unix) =>
      id in st.requests && st.requests[id].phase.Admitted? && st.clock <= now <= unix <= now + sys.lag
    case Create(id, _, now) => id in st.requests && st.requests[id].phase.Passed? && st.clock <= now
    case Forget(id) => id in st.requests && st.requests[id].phase.Created?
    case Sweep(_) => true
  }

  /** CheckLocalUser: the cache it leaves and whether the login is accepted. */
  function CheckedUser(sys: System, cache: Cache, name: string, pwd: string, rowOk: bool, now: nat, unix: nat)
    : (Cache, bool)
  {
    if name == "" || |pwd| < 6 || !rowOk || name !in sys.users then (cache, false)
    else if !sys.alone && !sys.users[name].disableOtp then
      var cut := |pwd| - 6;
      var (cache', ok) := CheckedOtp(sys, cache, name, pwd[cut..], sys.users[name].otpSecret, now, unix);
      (cache', ok && sys.pinOk(name, pwd[..cut]))
    else (cache, sys.pinOk(name, pwd))
  }

  /** When the code inside the password was accepted, for a user whose password holds one. */
  function CodeTime(sys: System, user: string, unix: nat): Option<nat> {
    if sys.alone || user !in sys.users || sys.users[user].disableOtp then None else Some(unix)
  }

  function LoginStatus(sys: System, l: LM.Locks, user: string, peer: Peer, now: int, success: bool): LM.Locks {
    LM.UpdateLoginStatus(sys.locks, l, user, peer.ip, now, success)
  }

  function Ask(user: string, peer: Peer, now: int): LM.Request {
    LM.Request(user, peer.ip, peer.whitelisted, now)
  }

  function SetPhase(st: State, id: nat, phase: Phase): State
    requires id in st.requests
  {
    st.(requests := st.requests[id := st.requests[id].(phase := phase)])
  }

  /** CreateSession. */
  function Open(sys: System, st: State, user: string, at: Option<nat>, peer: Peer, now: nat): State {
    st.(sessions := st.sessions + [VpnSession(user, at)], locks := LoginStatus(sys, st.locks, user, peer, now, true))
  }

  function RowSecret(sys: System, user: string): string {
    if user in sys.users then sys.users[user].otpSecret else ""
  }

  /** CheckUser, with the local table or by other means. */
  function CheckedLogin(sys: System, cache: Cache, user: string, pwd: string, rowOk: bool, foreignOk: bool,
                        now: nat, unix: nat)
    : (Cache, bool)
  {
    if sys.local then CheckedUser(sys, cache, user, pwd, rowOk, now, unix) else (cache, foreignOk)
  }

  /** The end of LinkAuth: a pending login when OTP has its own window, a session otherwise. */
  function Finished(sys: System, st: State, r: Request, sid: string, peer: Peer, now: nat): State
    requires r.phase.Judged?
  {
    var user := r.pending.user;
    if user in sys.users && sys.alone && !sys.users[user].disableOtp then
      st.(locks := LoginStatus(sys, st.locks, user, peer, now, true),
          store := st.store[sid := Pending(user, sys.users[user].otpSecret)])
    else Open(sys, st, user, r.phase.within, peer, now)
  }

  function Do(sys: System, st: State, s: Step): State
    requires Enabled(sys, st, s)
  {
    match s
    case Enter(id, user, pwd, peer, now) =>
      var (locks, admits) := LM.CheckLocked(sys.locks, st.locks, Ask(user, peer, now));
      st.(locks := locks, clock := now,
          requests := st.requests[id := Request("", Pending(user, RowSecret(sys, user)),
                                                if admits then Entered(pwd) else Over)])
    case Judge(id, rowOk, foreignOk, peer, now, unix) =>
      var r := st.requests[id];
      var user := r.pending.user;
      var (cache, ok) := CheckedLogin(sys, st.cache, user, r.phase.pwd, rowOk, foreignOk, now, unix);
      var st1 := st.(cache := cache, clock := unix);
      if ok then SetPhase(st1, id, Judged(if sys.local then CodeTime(sys, user, unix) else None))
      else SetPhase(st1.(locks := LoginStatus(sys, st.locks, user, peer, unix, false)), id, Over)
    case Finish(id, sid, peer, now) =>
      SetPhase(Finished(sys, st.(clock := now), st.requests[id], sid, peer, now), id, Over)
    case Fetch(id, sid) => st.(requests := st.requests[id := Request(sid, st.store[sid], Fetched)])
    case BadBody(id) => SetPhase(st.(store := st.store - {st.requests[id].sid}), id, Over)
    case Gate(id, peer, now) =>
      var (locks, admits) := LM.CheckLocked(sys.locks, st.locks, Ask(st.requests[id].pending.user, peer, now));
      var st1 := st.(locks := locks, clock := now);
      if admits then SetPhase(st1, id, Admitted)
      else SetPhase(st1.(store := st.store - {st.requests[id].sid}), id, Over)
    case Verify(id, otp, peer, now, unix) =>
      var p := st.requests[id].pending;
      var (cache, ok) := CheckedOtp(sys, st.cache, p.user, otp, p.secret, now, unix);
      var st1 := st.(cache := cache, clock := unix);
      if ok then SetPhase(st1, id, Passed(unix))
      else SetPhase(st1.(locks := LoginStatus(sys, st.locks, p.user, peer, unix, false)), id, Over)
    case Create(id, peer, now) =>
      var r := st.requests[id];
      SetPhase(Open(sys, st.(clock := now), r.pending.user, Some(r.phase.at), peer, now), id, Created)
    case Forget(id) => SetPhase(st.(store := st.store - {st.requests[id].sid}), id, Over)
    case Sweep(now) => st.(cache := SweptCache(st.cache, now), clock := if st.clock < now then now else st.clock)
  }

  const Start := State(map[], map[], map[], [], LM.Locks(map[], map[], map[]), 0)

  predicate Run(sys: System, st: State, steps: seq<Step>)
    decreases |steps|
  {
    steps == [] || (Enabled(sys, st, steps[0]) && Run(sys, Do(sys, st, steps[0]), steps[1..]))
  }

  function End(sys: System, st: State, steps: seq<Step>): State
    requires Run(sys, st, steps)
    decreases |steps|
  {
    if steps == [] then st else End(sys, Do(sys, st, steps[0]), steps[1..])
  }

  // ---------------------------------------------------------------- one session per step

  /** A user whose every login must present a code: OTP is enabled on the row, and either OTP has its own window or
      passwords are checked, code included, against the local table. */
  predicate Guarded(sys: System, user: string) {
    user in sys.users && !sys.users[user].disableOtp && (sys.alone || sys.local)
  }

  /** A code accepted for a session that is open, or that request `id` is about to open. */
  datatype Ticket = OfSession(i: nat) | OfRequest(id: nat)

  ghost predicate Accepted(st: State, t: Ticket, user: string, at: nat) {
    match t
    case OfSession(i) => i < |st.sessions| && st.sessions[i] == VpnSession(user, Some(at))
    case OfRequest(id) =>
      && id in st.requests && st.requests[id].pending.user == user
      && st.requests[id].phase in {Passed(at), Judged(Some(at))}
  }

  /** As long as the step of an accepted code lasts, the code stays in the cache. */
  ghost predicate Cached(sys: System, st: State, user: string, at: nat)
    requires user in sys.users
  {
    at <= st.clock &&
    (StepOf(at) == StepOf(st.clock) ==>
      var key := Key(user, sys.totp(sys.users[user].otpSecret, StepOf(at)));
      key in st.cache && at <= st.cache[key] + sys.lag)
  }

  ghost predicate OneEach(st: State, user: string) {
    forall t, t', at, at' :: (Accepted(st, t, user, at) && Accepted(st, t', user, at') && t != t') ==>
      StepOf(at) != StepOf(at')
  }

  ghost predicate AllCached(sys: System, st: State, user: string)
    requires user in sys.users
  {
    forall t, at :: Accepted(st, t, user, at) ==> Cached(sys, st, user, at)
  }

  /** Pending logins of `user` carry the secret of its row, and none of its sessions does without a code. */
  ghost predicate Honest(sys: System, st: State, user: string)
    requires user in sys.users
  {
    && (forall sid :: sid in st.store && st.store[sid].user == user ==>
          st.store[sid].secret == sys.users[user].otpSecret)
    && (forall id :: id in st.requests && st.requests[id].pending.user == user ==>
          && st.requests[id].pending.secret == sys.users[user].otpSecret
          && (st.requests[id].phase.Judged? && st.requests[id].phase.within.None? ==> sys.alone))
    && (forall i :: 0 <= i < |st.sessions| && st.sessions[i].user == user ==> st.sessions[i].at.Some?)
  }

  ghost predicate Inv(sys: System, st: State, user: string)
    requires user in sys.users
  {
    Honest(sys, st, user) && AllCached(sys, st, user) && OneEach(st, user)
  }

  /** What every step leaves of the cache: whatever is not older than EXPIRE. */
  ghost predicate KeepsRecent(st: State, st': State) {
    st.clock <= st'.clock &&
    (forall k :: k in st.cache && st'.clock <= st.cache[k] + EXPIRE ==> k in st'.cache && st'.cache[k] == st.cache[k])
  }

  lemma CachedLater(sys: System, st: State, st': State, user: string, at: nat)
    requires user in sys.users && sys.lag <= TOTP_STEP + 1 && KeepsRecent(st, st') && Cached(sys, st, user, at)
    ensures Cached(sys, st', user, at)
  {
  }

  /** Steps that accept no code. */
  lemma QuietKeeps(sys: System, st: State, st': State, user: string)
    requires user in sys.users && sys.lag <= TOTP_STEP + 1 && Inv(sys, st, user)
    requires KeepsRecent(st, st') && Honest(sys, st', user)
    requires forall t, at :: Accepted(st', t, user, at) ==> Accepted(st, t, user, at)
    ensures Inv(sys, st', user)
  {
    forall t, at | Accepted(st', t, user, at) ensures Cached(sys, st', user, at) {
      CachedLater(sys, st, st', user, at);
    }
  }

  /** A code that is accepted is new in its step. */
  lemma GainKeeps(sys: System, st: State, st': State, user: string, otp: string, t0: Ticket, now: nat)
    requires user in sys.users && sys.lag <= TOTP_STEP + 1 && Inv(sys, st, user)
    requires st.clock <= now <= st'.clock <= now + sys.lag
    requires CheckedOtp(sys, st.cache, user, otp, sys.users[user].otpSecret, now, st'.clock) == (st'.cache, true)
    requires Honest(sys, st', user)
    requires forall t, at :: Accepted(st', t, user, at) ==> Accepted(st, t, user, at) || (t == t0 && at == st'.clock)
    ensures Inv(sys, st', user)
  {
    forall t, at | Accepted(st', t, user, at) ensures Cached(sys, st', user, at) {
      if Accepted(st, t, user, at) {
        CachedLater(sys, st, st', user, at);
      }
    }
    forall t, at | Accepted(st, t, user, at) ensures StepOf(at) != StepOf(st'.clock) {
      assert Cached(sys, st, user, at);
    }
  }

  lemma JudgeStaysHonest(sys: System, st: State, s: Step, user: string)
    requires Guarded(sys, user) && Honest(sys, st, user) && s.Judge? && Enabled(sys, st, s)
    ensures Honest(sys, Do(sys, st, s), user) && KeepsRecent(st, Do(sys, st, s))
  {
  }

  /** A guarded user gets past CheckUser with a code only if it is accepted then. */
  lemma JudgeChecksCode(sys: System, st: State, s: Step, user: string)
    requires Guarded(sys, user) && s.Judge? && Enabled(sys, st, s) && st.requests[s.id].pending.user == user
    requires Do(sys, st, s).requests[s.id].phase.Judged? && Do(sys, st, s).requests[s.id].phase.within.Some?
    ensures var pwd := st.requests[s.id].phase.pwd;
            && |pwd| >= 6 && Do(sys, st, s).requests[s.id].phase.within == Some(s.unix)
            && CheckedOtp(sys, st.cache, user, pwd[|pwd| - 6..], sys.users[user].otpSecret, s.now, s.unix)
               == (Do(sys, st, s).cache, true)
  {
  }

  lemma JudgeKeeps(sys: System, st: State, s: Step, user: string)
    requires Guarded(sys, user) && sys.lag <= TOTP_STEP + 1 && Inv(sys, st, user)
    requires s.Judge? && Enabled(sys, st, s)
    ensures Inv(sys, Do(sys, st, s), user)
  {
    var st' := Do(sys, st, s);
    JudgeStaysHonest(sys, st, s, user);
    var phase := st'.requests[s.id].phase;
    if st.requests[s.id].pending.user == user && phase.Judged? && phase.within.Some? {
      JudgeChecksCode(sys, st, s, user);
      var pwd := st.requests[s.id].phase.pwd;
      GainKeeps(sys, st, st', user, pwd[|pwd| - 6..], OfRequest(s.id), s.now);
    } else {
      QuietKeeps(sys, st, st', user);
    }
  }

  /** The end of a LinkAuth that opens its session moves its code; the other does nothing to codes. */
  lemma FinishKeeps(sys: System, st: State, s: Step, user: string)
    requires Guarded(sys, user) && sys.lag <= TOTP_STEP + 1 && Inv(sys, st, user)
    requires s.Finish? && Enabled(sys, st, s)
    ensures Inv(sys, Do(sys, st, s), user)
  {
    var st' := Do(sys, st, s);
    var n := |st.sessions|;
    if st'.sessions == st.sessions {
      QuietKeeps(sys, st, st', user);
    } else {
      MoveKeeps(sys, st, st', s.id, user);
    }
  }

  /** The code accepted for a request becomes that of its session. */
  lemma MoveKeeps(sys: System, st: State, st': State, id: nat, user: string)
    requires user in sys.users && sys.lag <= TOTP_STEP + 1 && Inv(sys, st, user)
    requires id in st.requests && st'.cache == st.cache && st.clock <= st'.clock && Honest(sys, st', user)
    requires st'.requests.Keys == st.requests.Keys
    requires forall k :: k in st.requests && k != id ==> st'.requests[k] == st.requests[k]
    requires st'.requests[id].phase.Over? || st'.requests[id].phase.Created?
    requires |st'.sessions| == |st.sessions| + 1 && st'.sessions[..|st.sessions|] == st.sessions
    requires forall at :: Accepted(st', OfSession(|st.sessions|), user, at) ==> Accepted(st, OfRequest(id), user, at)
    ensures Inv(sys, st', user)
  {
    var n := |st.sessions|;
    forall t, at | Accepted(st', t, user, at)
      ensures Accepted(st, if t == OfSession(n) then OfRequest(id) else t, user, at)
      ensures t != OfRequest(id)
      ensures Cached(sys, st', user, at)
    {
      if t.OfSession? && t.i < n {
        assert st'.sessions[t.i] == st'.sessions[..n][t.i];
      }
      assert Accepted(st, if t == OfSession(n) then OfRequest(id) else t, user, at);
      CachedLater(sys, st, st', user, at);
    }
  }

  lemma VerifyKeeps(sys: System, st: State, s: Step, user: string)
    requires Guarded(sys, user) && sys.lag <= TOTP_STEP + 1 && Inv(sys, st, user)
    requires s.Verify? && Enabled(sys, st, s)
    ensures Inv(sys, Do(sys, st, s), user)
  {
    var st' := Do(sys, st, s);
    if st'.requests[s.id].phase.Passed? && st.requests[s.id].pending.user == user {
      GainKeeps(sys, st, st', user, s.otp, OfRequest(s.id), s.now);
    } else {
      QuietKeeps(sys, st, st', user);
    }
  }

  lemma CreateKeeps(sys: System, st: State, s: Step, user: string)
    requires Guarded(sys, user) && sys.lag <= TOTP_STEP + 1 && Inv(sys, st, user)
    requires s.Create? && Enabled(sys, st, s)
    ensures Inv(sys, Do(sys, st, s), user)
  {
    MoveKeeps(sys, st, Do(sys, st, s), s.id, user);
  }

  lemma AdmissionKeeps(sys: System, st: State, s: Step, user: string)
    requires Guarded(sys, user) && sys.lag <= TOTP_STEP + 1 && Inv(sys, st, user) && Enabled(sys, st, s)
    requires s.Enter? || s.Gate?
    ensures Inv(sys, Do(sys, st, s), user)
  {
    QuietKeeps(sys, st, Do(sys, st, s), user);
  }

  lemma StoreKeeps(sys: System, st: State, s: Step, user: string)
    requires Guarded(sys, user) && sys.lag <= TOTP_STEP + 1 && Inv(sys, st, user) && Enabled(sys, st, s)
    requires s.Fetch? || s.BadBody? || s.Forget?
    ensures Inv(sys, Do(sys, st, s), user)
  {
    QuietKeeps(sys, st, Do(sys, st, s), user);
  }

  lemma StepKeeps(sys: System, st: State, s: Step, user: string)
    requires Guarded(sys, user) && sys.lag <= TOTP_STEP + 1 && Inv(sys, st, user) && Enabled(sys, st, s)
    ensures Inv(sys, Do(sys, st, s), user)
  {
    match s
    case Judge(_, _, _, _, _, _) => JudgeKeeps(sys, st, s, user);
    case Finish(_, _, _, _) => FinishKeeps(sys, st, s, user);
    case Verify(_, _, _, _, _) => VerifyKeeps(sys, st, s, user);
    case Create(_, _, _) => CreateKeeps(sys, st, s, user);
    case Enter(_, _, _, _, _) => AdmissionKeeps(sys, st, s, user);
    case Gate(_, _, _) => AdmissionKeeps(sys, st, s, user);
    case Sweep(_) => QuietKeeps(sys, st, Do(sys, st, s), user);
    case _ => StoreKeeps(sys, st, s, user);
  }

  lemma {:induction false} RunKeeps(sys: System, st: State, steps: seq<Step>, user: string)
    requires Guarded(sys, user) && sys.lag <= TOTP_STEP + 1 && Inv(sys, st, user) && Run(sys, st, steps)
    ensures Inv(sys, End(sys, st, steps), user)
    decreases |steps|
  {
    if steps != [] {
      StepKeeps(sys, st, steps[0], user);
      RunKeeps(sys, Do(sys, st, steps[0]), steps[1..], user);
    }
  }

  /** At most one session of `user` in each time step, and none without an accepted code. */
  ghost predicate OneSessionPerStep(st: State, user: string) {
    && (forall i :: 0 <= i < |st.sessions| && st.sessions[i].user == user ==> st.sessions[i].at.Some?)
    && (forall i, j :: (0 <= i < j < |st.sessions| && st.sessions[i].user == user && st.sessions[j].user == user
                        && st.sessions[i].at.Some? && st.sessions[j].at.Some?) ==>
          StepOf(st.sessions[i].at.value) != StepOf(st.sessions[j].at.value))
  }

  /** The one-time rule, over every run of concurrent logins and sweeps, while CheckOtp reads the clock twice within a
      time step (and a tick). */
  lemma OneSessionPerTimeStep(sys: System, steps: seq<Step>, user: string)
    requires Guarded(sys, user) && sys.lag <= TOTP_STEP + 1 && Run(sys, Start, steps)
    ensures OneSessionPerStep(End(sys, Start, steps), user)
  {
    RunKeeps(sys, Start, steps, user);
    var st := End(sys, Start, steps);
    forall i, j | 0 <= i < j < |st.sessions| && st.sessions[i].user == user && st.sessions[j].user == user
      ensures StepOf(st.sessions[i].at.value) != StepOf(st.sessions[j].at.value)
    {
      assert Accepted(st, OfSession(i), user, st.sessions[i].at.value);
      assert Accepted(st, OfSession(j), user, st.sessions[j].at.value);
    }
  }

  // ---------------------------------------------------------------- the bound is exact

  lemma {:induction false} Snoc(sys: System, st: State, steps: seq<Step>, s: Step)
    requires Run(sys, st, steps) && Enabled(sys, End(sys, st, steps), s)
    ensures Run(sys, st, steps + [s]) && End(sys, st, steps + [s]) == Do(sys, End(sys, st, steps), s)
    decreases |steps|
  {
    if steps == [] {
      assert ([s])[1..] == [] && steps + [s] == [s];
      assert Run(sys, Do(sys, st, s), []);
    } else {
      Snoc(sys, Do(sys, st, steps[0]), steps[1..], s);
      assert (steps + [s])[1..] == steps[1..] + [s];
    }
  }

  /** Two requests from the pending login `p` are past the lock check, and no code was seen yet. */
  ghost predicate TwoAdmitted(st: State, p: Pending) {
    && 0 in st.requests && st.requests[0] == Request("sid", p, Admitted)
    && 1 in st.requests && st.requests[1] == Request("sid", p, Admitted)
    && st.cache == map[] && st.sessions == []
  }

  lemma TwoRequests(sys: System, user: string, pwd: string, peer: Peer, from: nat) returns (steps: seq<Step>)
    requires Guarded(sys, user) && sys.alone && user != "" && |pwd| >= 6 && sys.pinOk(user, pwd) && peer.whitelisted
    ensures Run(sys, Start, steps)
    ensures var st := End(sys, Start, steps);
            st.clock == from && TwoAdmitted(st, Pending(user, sys.users[user].otpSecret))
  {
    var p := Pending(user, sys.users[user].otpSecret);
    steps := [];
    Snoc(sys, Start, steps, Enter(2, user, pwd, peer, from));
    steps := steps + [Enter(2, user, pwd, peer, from)];
    Snoc(sys, Start, steps, Judge(2, true, true, peer, from, from));
    steps := steps + [Judge(2, true, true, peer, from, from)];
    assert End(sys, Start, steps).requests[2] == Request("", p, Judged(None));
    Snoc(sys, Start, steps, Finish(2, "sid", peer, from));
    steps := steps + [Finish(2, "sid", peer, from)];
    assert End(sys, Start, steps).store == map["sid" := p];
    Snoc(sys, Start, steps, Fetch(0, "sid"));
    steps := steps + [Fetch(0, "sid")];
    Snoc(sys, Start, steps, Fetch(1, "sid"));
    steps := steps + [Fetch(1, "sid")];
    Snoc(sys, Start, steps, Gate(0, peer, from));
    steps := steps + [Gate(0, peer, from)];
    Snoc(sys, Start, steps, Gate(1, peer, from));
    steps := steps + [Gate(1, peer, from)];
  }

  /** The first request reads the clock `lag` apart and opens its session; the sweeper runs at the end of the time
      step. */
  lemma FirstRequest(sys: System, user: string, otp: string, peer: Peer, u: nat,
                     before: seq<Step>) returns (steps: seq<Step>)
    requires user in sys.users && TOTP_STEP + 1 < sys.lag <= u && Run(sys, Start, before)
    requires var p := Pending(user, sys.users[user].otpSecret);
             var st := End(sys, Start, before); st.clock == u - sys.lag && TwoAdmitted(st, p)
    requires otp == sys.totp(sys.users[user].otpSecret, StepOf(u))
    ensures Run(sys, Start, steps)
    ensures var p := Pending(user, sys.users[user].otpSecret);
            var st := End(sys, Start, steps);
            && st.clock == u + TOTP_STEP - 1 && st.cache == map[] && st.sessions == [VpnSession(user, Some(u))]
            && 1 in st.requests && st.requests[1] == Request("sid", p, Admitted)
  {
    var from, last := u - sys.lag, u + TOTP_STEP - 1;
    steps := before;
    Snoc(sys, Start, steps, Verify(0, otp, peer, from, u));
    steps := steps + [Verify(0, otp, peer, from, u)];
    assert End(sys, Start, steps).cache == map[Key(user, otp) := from];
    Snoc(sys, Start, steps, Create(0, peer, u));
    steps := steps + [Create(0, peer, u)];
    Snoc(sys, Start, steps, Sweep(last));
    steps := steps + [Sweep(last)];
  }

  /** The second request presents the same code at the end of the same time step. */
  lemma SecondRequest(sys: System, user: string, otp: string, peer: Peer, last: nat, before: seq<Step>)
    returns (steps: seq<Step>)
    requires user in sys.users && Run(sys, Start, before)
    requires var p := Pending(user, sys.users[user].otpSecret);
             var st := End(sys, Start, before);
             st.clock == last && st.cache == map[] && 1 in st.requests && st.requests[1] == Request("sid", p, Admitted)
    requires otp == sys.totp(sys.users[user].otpSecret, StepOf(last))
    ensures Run(sys, Start, steps)
    ensures End(sys, Start, steps).sessions == End(sys, Start, before).sessions + [VpnSession(user, Some(last))]
  {
    steps := before;
    Snoc(sys, Start, steps, Verify(1, otp, peer, last, last));
    steps := steps + [Verify(1, otp, peer, last, last)];
    Snoc(sys, Start, steps, Create(1, peer, last));
    steps := steps + [Create(1, peer, last)];
  }

  /** With a code inside the password: two logins with one password are past the lock check, and no code was seen
      yet. */
  ghost predicate TwoEntered(st: State, p: Pending, pwd: string) {
    && 0 in st.requests && st.requests[0] == Request("", p, Entered(pwd))
    && 1 in st.requests && st.requests[1] == Request("", p, Entered(pwd))
    && st.cache == map[] && st.sessions == []
  }

  lemma TwoLogins(sys: System, user: string, pwd: string, peer: Peer, from: nat) returns (steps: seq<Step>)
    requires user in sys.users && peer.whitelisted
    ensures Run(sys, Start, steps)
    ensures var st := End(sys, Start, steps);
            st.clock == from && TwoEntered(st, Pending(user, sys.users[user].otpSecret), pwd)
  {
    steps := [];
    Snoc(sys, Start, steps, Enter(0, user, pwd, peer, from));
    steps := steps + [Enter(0, user, pwd, peer, from)];
    Snoc(sys, Start, steps, Enter(1, user, pwd, peer, from));
    steps := steps + [Enter(1, user, pwd, peer, from)];
  }

  /** A new code behind the right password is accepted and cached. */
  lemma CodeInPassword(sys: System, cache: Cache, user: string, pin: string, otp: string, now: nat, unix: nat)
    requires Guarded(sys, user) && !sys.alone && user != "" && sys.pinOk(user, pin) && |otp| == 6
    requires otp == sys.totp(sys.users[user].otpSecret, StepOf(unix)) && Key(user, otp) !in cache
    ensures CheckedLogin(sys, cache, user, pin + otp, true, true, now, unix) == (cache[Key(user, otp) := now], true)
  {
    assert (pin + otp)[..|pin|] == pin && (pin + otp)[|pin|..] == otp;
  }

  /** The first login reads the clock `lag` apart and opens its session; the sweeper runs at the end of the time
      step. */
  lemma FirstLogin(sys: System, user: string, pin: string, otp: string, peer: Peer, u: nat, before: seq<Step>)
    returns (steps: seq<Step>)
    requires Guarded(sys, user) && !sys.alone && user != "" && sys.pinOk(user, pin) && |otp| == 6
    requires TOTP_STEP + 1 < sys.lag <= u && Run(sys, Start, before)
    requires var st := End(sys, Start, before);
             st.clock == u - sys.lag && TwoEntered(st, Pending(user, sys.users[user].otpSecret), pin + otp)
    requires otp == sys.totp(sys.users[user].otpSecret, StepOf(u))
    ensures Run(sys, Start, steps)
    ensures var p := Pending(user, sys.users[user].otpSecret);
            var st := End(sys, Start, steps);
            && st.clock == u + TOTP_STEP - 1 && st.cache == map[] && st.sessions == [VpnSession(user, Some(u))]
            && 1 in st.requests && st.requests[1] == Request("", p, Entered(pin + otp))
  {
    var from, last := u - sys.lag, u + TOTP_STEP - 1;
    steps := before;
    CodeInPassword(sys, map[], user, pin, otp, from, u);
    Snoc(sys, Start, steps, Judge(0, true, true, peer, from, u));
    steps := steps + [Judge(0, true, true, peer, from, u)];
    assert End(sys, Start, steps).cache == map[Key(user, otp) := from];
    Snoc(sys, Start, steps, Finish(0, "", peer, u));
    steps := steps + [Finish(0, "", peer, u)];
    Snoc(sys, Start, steps, Sweep(last));
    steps := steps + [Sweep(last)];
  }

  /** The second login presents the same password at the end of the same time step. */
  lemma SecondLogin(sys: System, user: string, pin: string, otp: string, peer: Peer, last: nat, before: seq<Step>)
    returns (steps: seq<Step>)
    requires Guarded(sys, user) && !sys.alone && user != "" && sys.pinOk(user, pin) && |otp| == 6
    requires Run(sys, Start, before)
    requires var p := Pending(user, sys.users[user].otpSecret);
             var st := End(sys, Start, before);
             && st.clock == last && st.cache == map[]
             && 1 in st.requests && st.requests[1] == Request("", p, Entered(pin + otp))
    requires otp == sys.totp(sys.users[user].otpSecret, StepOf(last))
    ensures Run(sys, Start, steps)
    ensures End(sys, Start, steps).sessions == End(sys, Start, before).sessions + [VpnSession(user, Some(last))]
  {
    steps := before;
    CodeInPassword(sys, map[], user, pin, otp, last, last);
    Snoc(sys, Start, steps, Judge(1, true, true, peer, last, last));
    steps := steps + [Judge(1, true, true, peer, last, last)];
    Snoc(sys, Start, steps, Finish(1, "", peer, last));
    steps := steps + [Finish(1, "", peer, last)];
  }

  /** A user who can log in: with the password and a code of six characters behind it, or with the password alone when
      OTP has its own window. */
  ghost predicate CanLogIn(sys: System, user: string, pwd: string)
    requires user in sys.users
  {
    && user != "" && sys.pinOk(user, pwd)
    && (if sys.alone then |pwd| >= 6 else forall step: nat :: |sys.totp(sys.users[user].otpSecret, step)| == 6)
  }

  /** Two requests open two sessions with one code of one time step. */
  lemma LongChecksReplay(sys: System, user: string, pwd: string) returns (steps: seq<Step>)
    requires Guarded(sys, user) && CanLogIn(sys, user, pwd) && sys.lag > TOTP_STEP + 1
    ensures Run(sys, Start, steps) && !OneSessionPerStep(End(sys, Start, steps), user)
  {
    var u := TOTP_STEP * sys.lag;
    var last := u + TOTP_STEP - 1;
    assert StepOf(u) == sys.lag == StepOf(last);
    var otp := sys.totp(sys.users[user].otpSecret, sys.lag);
    var peer := Peer(Some("192.0.2.1"), true);
    if sys.alone {
      steps := TwoRequests(sys, user, pwd, peer, u - sys.lag);
      steps := FirstRequest(sys, user, otp, peer, u, steps);
      steps := SecondRequest(sys, user, otp, peer, last, steps);
    } else {
      steps := TwoLogins(sys, user, pwd + otp, peer, u - sys.lag);
      steps := FirstLogin(sys, user, pwd, otp, peer, u, steps);
      steps := SecondLogin(sys, user, pwd, otp, peer, last, steps);
    }
    var two := End(sys, Start, steps).sessions;
    assert two == [VpnSession(user, Some(u)), VpnSession(user, Some(last))];
    assert two[0].user == two[1].user == user;
  }

  /** The one-time rule holds exactly while CheckOtp's two readings of the clock are at most a time step and a tick
      apart. */
  lemma OneTimeExactlyWhen(sys: System, user: string, pwd: string)
    requires Guarded(sys, user) && CanLogIn(sys, user, pwd)
    ensures (forall steps :: Run(sys, Start, steps) ==> OneSessionPerStep(End(sys, Start, steps), user))
            <==> sys.lag <= TOTP_STEP + 1
  {
    if sys.lag <= TOTP_STEP + 1 {
      forall steps | Run(sys, Start, steps) ensures OneSessionPerStep(End(sys, Start, steps), user) {
        OneSessionPerTimeStep(sys, steps, user);
      }
    } else {
      var steps := LongChecksReplay(sys, user, pwd);
    }
  }

  // ---------------------------------------------------------------- the handlers

  class SessionStore {
    var session: map<string, Pending>

    constructor ()
      ensures session == map[]
    {
      session := map[];
    }

    method SaveAuthSession(sid: string, p: Pending)
      modifies this
      ensures session == old(session)[sid := p]
    {
      session := session[sid := p];
    }

    method GetAuthSession(sid: string) returns (r: Option<Pending>)
      ensures r == if sid in session then Some(session[sid]) else None
    {
      if sid !in session {
        return None;
      }
      return Some(session[sid]);
    }

    method DeleteAuthSession(sid: string)
      modifies this
      ensures session == old(session) - {sid}
    {
      session := session - {sid};
    }
  }

  /** The state the handlers share. Each handler, left alone, makes the run of its own steps. */
  class Handler {
    const sys: System
    const otps: OtpCache
    const store: SessionStore
    var locks: LM.Locks
    var sessions: seq<VpnSession>
    var clock: nat
    ghost var requests: map<nat, Request>

    constructor (sys: System)
      ensures St() == Start && this.sys == sys && fresh(otps) && fresh(store)
    {
      this.sys := sys;
      otps := new OtpCache();
      store := new SessionStore();
      locks, sessions, clock := LM.Locks(map[], map[], map[]), [], 0;
      requests := map[];
    }

    ghost function St(): State
      reads this, otps, store
    {
      State(otps.userOtp, store.session, requests, sessions, locks, clock)
    }

    method CheckLocked(user: string, peer: Peer, now: nat) returns (admits: bool)
      modifies this`locks, this`clock
      ensures (locks, admits) == LM.CheckLocked(sys.locks, old(locks), Ask(user, peer, now)) && clock == now
    {
      var (l, a) := LM.CheckLocked(sys.locks, locks, Ask(user, peer, now));
      locks, clock, admits := l, now, a;
    }

    method UpdateLoginStatus(user: string, peer: Peer, now: nat, success: bool)
      modifies this`locks
      ensures locks == LoginStatus(sys, old(locks), user, peer, now, success)
    {
      locks := LoginStatus(sys, locks, user, peer, now, success);
    }

    method CreateSession(user: string, at: Option<nat>, peer: Peer, now: nat)
      modifies this`locks, this`sessions
      ensures St() == Open(sys, old(St()), user, at, peer, now)
    {
      UpdateLoginStatus(user, peer, now, true);
      sessions := sessions + [VpnSession(user, at)];
    }

    /** CheckUser with the local table. */
    method CheckLocalUser(name: string, pwd: string, rowOk: bool, now: nat, unix: nat) returns (ok: bool)
      modifies otps
      ensures (otps.userOtp, ok) == CheckedUser(sys, old(otps.userOtp), name, pwd, rowOk, now, unix)
    {
      if name == "" || |pwd| < 6 || !rowOk || name !in sys.users {
        return false;
      }
      var pinCode := pwd;
      if !sys.alone {
        if !sys.users[name].disableOtp {
          pinCode := pwd[..|pwd| - 6];
          var accepted := otps.CheckOtp(sys, name, pwd[|pwd| - 6..], sys.users[name].otpSecret, now, unix);
          if !accepted {
            return false;
          }
        }
      }
      return sys.pinOk(name, pinCode);
    }

    /** CheckUser. */
    method CheckUser(user: string, pwd: string, rowOk: bool, foreignOk: bool, now: nat, unix: nat) returns (ok: bool)
      modifies otps
      ensures (otps.userOtp, ok) == CheckedLogin(sys, old(otps.userOtp), user, pwd, rowOk, foreignOk, now, unix)
    {
      if !sys.local {
        return foreignOk;
      }
      ok := CheckLocalUser(user, pwd, rowOk, now, unix);
    }

    /** LinkAuth: `t0`..`t3` are the successive readings of the clock, and `sid` the id drawn for a pending login. */
    method LinkAuth(ghost id: nat, user: string, pwd: string, peer: Peer, rowOk: bool, foreignOk: bool, sid: string,
                    t0: nat, t1: nat, t2: nat, t3: nat) returns (ghost steps: seq<Step>)
      requires id !in requests && clock <= t0 <= t1 <= t2 <= t3 && t2 <= t1 + sys.lag
      modifies this, otps, store
      ensures Run(sys, old(St()), steps) && St() == End(sys, old(St()), steps)
      ensures id in requests && requests[id].phase.Over?
    {
      ghost var was := St();
      ghost var p := Pending(user, RowSecret(sys, user));
      var admits := CheckLocked(user, peer, t0);
      Snoc(sys, was, [], Enter(id, user, pwd, peer, t0));
      steps := [] + [Enter(id, user, pwd, peer, t0)];
      requests := requests[id := Request("", p, if admits then Entered(pwd) else Over)];
      if !admits {
        return;
      }
      ghost var more := Login(was, steps, id, user, pwd, peer, rowOk, foreignOk, sid, t1, t2, t3);
      steps := more;
    }

    /** LinkAuth from CheckUser on. */
    method Login(ghost was: State, ghost before: seq<Step>, ghost id: nat, user: string, pwd: string, peer: Peer,
                 rowOk: bool,
                 foreignOk: bool, sid: string, t1: nat, t2: nat, t3: nat) returns (ghost steps: seq<Step>)
      requires id in requests && requests[id] == Request("", Pending(user, RowSecret(sys, user)), Entered(pwd))
      requires clock <= t1 <= t2 <= t3 && t2 <= t1 + sys.lag
      requires Run(sys, was, before) && St() == End(sys, was, before)
      modifies this, otps, store
      ensures Run(sys, was, steps) && St() == End(sys, was, steps)
      ensures id in requests && requests[id].phase.Over?
    {
      ghost var p := Pending(user, RowSecret(sys, user));
      steps := before;
      Snoc(sys, was, steps, Judge(id, rowOk, foreignOk, peer, t1, t2));
      steps := steps + [Judge(id, rowOk, foreignOk, peer, t1, t2)];
      var ok := CheckUser(user, pwd, rowOk, foreignOk, t1, t2);
      clock := t2;
      if !ok {
        UpdateLoginStatus(user, peer, t2, false);
        requests := requests[id := Request("", p, Over)];
        return;
      }
      var at := if sys.local then CodeTime(sys, user, t2) else None;
      requests := requests[id := Request("", p, Judged(at))];
      assert St() == End(sys, was, steps);
      Snoc(sys, was, steps, Finish(id, sid, peer, t3));
      steps := steps + [Finish(id, sid, peer, t3)];
      Complete(user, at, sid, peer, t3);
      requests := requests[id := Request("", p, Over)];
    }

    /** LinkAuth once the user is accepted. */
    method Complete(user: string, at: Option<nat>, sid: string, peer: Peer, now: nat)
      modifies this`locks, this`clock, this`sessions, store
      ensures St()
              == Finished(sys, old(St()).(clock := now), Request("", Pending(user, ""), Judged(at)), sid, peer, now)
    {
      clock := now;
      if user in sys.users && sys.alone && !sys.users[user].disableOtp {
        UpdateLoginStatus(user, peer, now, true);
        store.SaveAuthSession(sid, Pending(user, sys.users[user].otpSecret));
        return;
      }
      CreateSession(user, at, peer, now);
    }

    /** LinkAuth_otp: `body` says whether the request could be read, `t0`..`t3` are the successive readings of the
        clock. */
    method LinkAuthOtp(ghost id: nat, sid: string, body: bool, otp: string, peer: Peer, t0: nat, t1: nat, t2: nat,
                       t3: nat)
      returns (ghost steps: seq<Step>)
      requires id !in requests && clock <= t0 <= t1 <= t2 <= t3 && t2 <= t1 + sys.lag
      modifies this, otps, store
      ensures Run(sys, old(St()), steps) && St() == End(sys, old(St()), steps)
      ensures id in requests ==> requests[id].phase.Over?
    {
      ghost var was := St();
      var found := store.GetAuthSession(sid);
      steps := [];
      if found.None? {
        return;
      }
      var p := found.value;
      Snoc(sys, was, steps, Fetch(id, sid));
      steps := steps + [Fetch(id, sid)];
      requests := requests[id := Request(sid, p, Fetched)];
      if !body {
        Snoc(sys, was, steps, BadBody(id));
        steps := steps + [BadBody(id)];
        store.DeleteAuthSession(sid);
        requests := requests[id := Request(sid, p, Over)];
        return;
      }
      var admits := CheckLocked(p.user, peer, t0);
      Snoc(sys, was, steps, Gate(id, peer, t0));
      steps := steps + [Gate(id, peer, t0)];
      if !admits {
        store.DeleteAuthSession(sid);
        requests := requests[id := Request(sid, p, Over)];
        return;
      }
      requests := requests[id := Request(sid, p, Admitted)];
      ghost var more := Admit(was, steps, id, sid, p, otp, peer, t1, t2, t3);
      steps := more;
    }

    /** LinkAuth_otp from the check of the code on. */
    method Admit(ghost was: State, ghost before: seq<Step>, ghost id: nat, sid: string, p: Pending, otp: string,
                 peer: Peer,
                 t1: nat, t2: nat, t3: nat) returns (ghost steps: seq<Step>)
      requires id in requests && requests[id] == Request(sid, p, Admitted)
      requires clock <= t1 <= t2 <= t3 && t2 <= t1 + sys.lag
      requires Run(sys, was, before) && St() == End(sys, was, before)
      modifies this, otps, store
      ensures Run(sys, was, steps) && St() == End(sys, was, steps)
      ensures id in requests && requests[id].phase.Over?
    {
      steps := before;
      Snoc(sys, was, steps, Verify(id, otp, peer, t1, t2));
      steps := steps + [Verify(id, otp, peer, t1, t2)];
      var accepted := otps.CheckOtp(sys, p.user, otp, p.secret, t1, t2);
      clock := t2;
      if !accepted {
        UpdateLoginStatus(p.user, peer, t2, false);
        requests := requests[id := Request(sid, p, Over)];
        return;
      }
      requests := requests[id := Request(sid, p, Passed(t2))];
      Snoc(sys, was, steps, Create(id, peer, t3));
      steps := steps + [Create(id, peer, t3)];
      clock := t3;
      CreateSession(p.user, Some(t2), peer, t3);
      requests := requests[id := Request(sid, p, Created)];
      Snoc(sys, was, steps, Forget(id));
      steps := steps + [Forget(id)];
      store.DeleteAuthSession(sid);
      requests := requests[id := Request(sid, p, Over)];
    }
  }
}
