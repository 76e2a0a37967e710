/** What stands behind a session: over every run of the login protocol each session and each pending login goes back
    to a request that the lock manager admitted and that presented the right password, and the lock manager is told of
    every failure and every success. */
module Credentials {
  import opened Wrappers
  import opened Login
  import LM = LockManager

  // ---------------------------------------------------------------- what is checked

  /** A code stands behind the password. */
  predicate CodeInside(sys: System, user: string) {
    !sys.alone && user in sys.users && !sys.users[user].disableOtp
  }

  /** The password of the row, with six more characters behind it if a code stands there. */
  predicate RightPassword(sys: System, user: string, pwd: string) {
    && user != "" && user in sys.users && |pwd| >= 6
    && sys.pinOk(user, if CodeInside(sys, user) then pwd[..|pwd| - 6] else pwd)
  }

  /** The code of the secret at this time, not seen before. */
  predicate RightCode(sys: System, cache: Cache, user: string, otp: string, secret: string, unix: nat) {
    user + ":" + otp !in cache && otp == sys.totp(secret, unix / 30_000_000_000)
  }

  /** CheckUser accepts: another means of authentication does, or the row, the password and a code behind it are
      right. */
  predicate RightLogin(sys: System, cache: Cache, user: string, pwd: string, rowOk: bool, foreignOk: bool, unix: nat) {
    if !sys.local then foreignOk
    else rowOk && RightPassword(sys, user, pwd)
         && (CodeInside(sys, user) ==>
               RightCode(sys, cache, user, pwd[|pwd| - 6..], sys.users[user].otpSecret, unix))
  }

  lemma LoginIsChecked(sys: System, cache: Cache, user: string, pwd: string, rowOk: bool, foreignOk: bool,
                       now: nat, unix: nat)
    ensures CheckedLogin(sys, cache, user, pwd, rowOk, foreignOk, now, unix).1
            <==> RightLogin(sys, cache, user, pwd, rowOk, foreignOk, unix)
  {}

  /** A code that is looked at is used up, right or wrong. */
  lemma CodeIsUsedUp(sys: System, cache: Cache, user: string, otp: string, secret: string, now: nat, unix: nat)
    ensures var (cache', ok) := CheckedOtp(sys, cache, user, otp, secret, now, unix);
      && (ok <==> RightCode(sys, cache, user, otp, secret, unix))
      && cache'.Keys == cache.Keys + {user + ":" + otp}
      && (forall k :: k in cache' ==> cache'[k] == if k in cache then cache[k] else now)
  {}

  // ---------------------------------------------------------------- the trail of a session

  /** The passwords of the logins that the lock manager admitted, and the users whose second stage it admitted. */
  datatype Trail = Trail(logins: set<(string, string)>, gates: set<string>)

  predicate Admits(sys: System, st: State, user: string, peer: Peer, now: int) {
    LM.CheckLocked(sys.locks, st.locks, LM.Request(user, peer.ip, peer.whitelisted, now)).1
  }

  function Trailed(sys: System, st: State, s: Step, t: Trail): Trail
    requires Enabled(sys, st, s)
  {
    match s
    case Enter(_, user, pwd, peer, now) =>
      if Admits(sys, st, user, peer, now) then t.(logins := t.logins + {(user, pwd)}) else t
    case Gate(id, peer, now) =>
      var user := st.requests[id].pending.user;
      if Admits(sys, st, user, peer, now) then t.(gates := t.gates + {user}) else t
    case _ => t
  }

  function TrailOf(sys: System, st: State, steps: seq<Step>, t: Trail): Trail
    requires Run(sys, st, steps)
    decreases |steps|
  {
    if steps == [] then t else TrailOf(sys, Do(sys, st, steps[0]), steps[1..], Trailed(sys, st, steps[0], t))
  }

  ghost predicate Backed(sys: System, t: Trail, user: string) {
    exists pwd :: (user, pwd) in t.logins && (sys.local ==> RightPassword(sys, user, pwd))
  }

  /** The user needs a second stage. */
  predicate TwoStaged(sys: System, user: string) { sys.alone && user in sys.users && !sys.users[user].disableOtp }

  ghost predicate RequestBacked(sys: System, t: Trail, r: Request) {
    match r.phase
    case Entered(pwd) => (r.pending.user, pwd) in t.logins
    case Over => true
    case Judged(_) => Backed(sys, t, r.pending.user)
    case Fetched => Backed(sys, t, r.pending.user)
    case _ => Backed(sys, t, r.pending.user) && r.pending.user in t.gates
  }

  ghost predicate AllBacked(sys: System, st: State, t: Trail) {
    && (forall id :: id in st.requests ==> RequestBacked(sys, t, st.requests[id]))
    && (forall sid :: sid in st.store ==> Backed(sys, t, st.store[sid].user))
    && (forall i :: 0 <= i < |st.sessions| ==>
          && Backed(sys, t, st.sessions[i].user)
          && (TwoStaged(sys, st.sessions[i].user) ==> st.sessions[i].user in t.gates))
  }

  lemma TrailGrows(sys: System, st: State, t: Trail, more: Trail)
    requires AllBacked(sys, st, t) && t.logins <= more.logins && t.gates <= more.gates
    ensures AllBacked(sys, st, more)
  {
    forall user | Backed(sys, t, user) ensures Backed(sys, more, user) {
      var pwd :| (user, pwd) in t.logins && (sys.local ==> RightPassword(sys, user, pwd));
      assert (user, pwd) in more.logins;
    }
  }

  /** A step that changes one request, and perhaps the sessions and the pending logins. */
  lemma OneRequest(sys: System, st: State, st': State, t: Trail, id: nat)
    requires AllBacked(sys, st, t) && id in st'.requests && st'.requests == st.requests[id := st'.requests[id]]
    requires RequestBacked(sys, t, st'.requests[id])
    requires forall sid :: sid in st'.store ==> sid in st.store && st'.store[sid] == st.store[sid]
    requires st'.sessions == st.sessions
    ensures AllBacked(sys, st', t)
  {}

  lemma JudgeIsBacked(sys: System, st: State, s: Step, t: Trail)
    requires AllBacked(sys, st, t) && Enabled(sys, st, s) && s.Judge?
    ensures AllBacked(sys, Do(sys, st, s), t)
  {
    var r := st.requests[s.id];
    LoginIsChecked(sys, st.cache, r.pending.user, r.phase.pwd, s.rowOk, s.foreignOk, s.now, s.unix);
    assert (r.pending.user, r.phase.pwd) in t.logins;
    OneRequest(sys, st, Do(sys, st, s), t, s.id);
  }

  lemma FinishIsBacked(sys: System, st: State, s: Step, t: Trail)
    requires AllBacked(sys, st, t) && Enabled(sys, st, s) && (s.Finish? || s.Create?)
    ensures AllBacked(sys, Do(sys, st, s), t)
  {
    assert RequestBacked(sys, t, st.requests[s.id]);
  }

  lemma AdmissionIsBacked(sys: System, st: State, s: Step, t: Trail)
    requires AllBacked(sys, st, t) && Enabled(sys, st, s) && (s.Enter? || s.Gate?)
    ensures AllBacked(sys, Do(sys, st, s), Trailed(sys, st, s, t))
  {
    var more := Trailed(sys, st, s, t);
    TrailGrows(sys, st, t, more);
    OneRequest(sys, st, Do(sys, st, s), more, s.id);
  }

  lemma StoreIsBacked(sys: System, st: State, s: Step, t: Trail)
    requires AllBacked(sys, st, t) && Enabled(sys, st, s) && (s.Fetch? || s.BadBody? || s.Verify? || s.Forget?)
    ensures AllBacked(sys, Do(sys, st, s), t)
  {
    OneRequest(sys, st, Do(sys, st, s), t, s.id);
  }

  lemma StepIsBacked(sys: System, st: State, s: Step, t: Trail)
    requires AllBacked(sys, st, t) && Enabled(sys, st, s)
    ensures AllBacked(sys, Do(sys, st, s), Trailed(sys, st, s, t))
  {
    match s
    case Judge(_, _, _, _, _, _) => JudgeIsBacked(sys, st, s, t);
    case Finish(_, _, _, _) => FinishIsBacked(sys, st, s, t);
    case Create(_, _, _) => FinishIsBacked(sys, st, s, t);
    case Enter(_, _, _, _, _) => AdmissionIsBacked(sys, st, s, t);
    case Gate(_, _, _) => AdmissionIsBacked(sys, st, s, t);
    case Sweep(_) =>
    case _ => StoreIsBacked(sys, st, s, t);
  }

  lemma {:induction false} RunIsBacked(sys: System, st: State, steps: seq<Step>, t: Trail)
    requires AllBacked(sys, st, t) && Run(sys, st, steps)
    ensures AllBacked(sys, End(sys, st, steps), TrailOf(sys, st, steps, t))
    decreases |steps|
  {
    if steps != [] {
      StepIsBacked(sys, st, steps[0], t);
      RunIsBacked(sys, Do(sys, st, steps[0]), steps[1..], Trailed(sys, st, steps[0], t));
    }
  }

  const NOBODY := Trail({}, {})

  /** Over every run each session and each pending login goes back to a login that the lock manager admitted, with the
      local table one that presented the right password; and a user with a second stage has a session only after the
      lock manager admitted that stage too. */
  lemma SessionsAreBacked(sys: System, steps: seq<Step>, user: string)
    requires Run(sys, Start, steps)
    requires var st := End(sys, Start, steps);
             (exists i :: 0 <= i < |st.sessions| && st.sessions[i].user == user)
             || (exists sid :: sid in st.store && st.store[sid].user == user)
    ensures var t := TrailOf(sys, Start, steps, NOBODY);
      && (exists pwd :: (user, pwd) in t.logins && (sys.local ==> RightPassword(sys, user, pwd)))
      && (TwoStaged(sys, user) && (exists i :: 0 <= i < |End(sys, Start, steps).sessions|
                                               && End(sys, Start, steps).sessions[i].user == user) ==>
            user in t.gates)
  {
    RunIsBacked(sys, Start, steps, NOBODY);
    assert Backed(sys, TrailOf(sys, Start, steps, NOBODY), user);
  }

  /** A request that was refused, or is finished, goes no further. */
  lemma OverIsFinal(sys: System, st: State, s: Step, id: nat)
    requires Enabled(sys, st, s) && id in st.requests && st.requests[id].phase.Over?
    ensures var st' := Do(sys, st, s); id in st'.requests && st'.requests[id] == st.requests[id]
  {}

  /** A pending login is dropped exactly by a body that can not be read, by a refusal of the second stage and after its
      session is created; a wrong code leaves it for another try. */
  lemma PendingIsDroppedExactlyWhen(sys: System, st: State, s: Step, sid: string)
    requires Enabled(sys, st, s) && sid in st.store
    ensures sid !in Do(sys, st, s).store <==>
      && (s.BadBody? || s.Forget? || s.Gate?)
      && st.requests[s.id].sid == sid
      && (s.Gate? ==> !Admits(sys, st, st.requests[s.id].pending.user, s.peer, s.now))
  {}

  // ---------------------------------------------------------------- what the lock manager is told

  /** What a step tells the lock manager: it asks before each stage, a wrong password or code is a failure, and a
      session or a pending login a success. */
  function Told(sys: System, st: State, s: Step): seq<LM.Op>
    requires Enabled(sys, st, s)
  {
    match s
    case Enter(_, user, _, peer, now) => [LM.Ask(LM.Request(user, peer.ip, peer.whitelisted, now))]
    case Gate(id, peer, now) =>
      [LM.Ask(LM.Request(st.requests[id].pending.user, peer.ip, peer.whitelisted, now))]
    case Judge(id, rowOk, foreignOk, peer, now, unix) =>
      var r := st.requests[id];
      if RightLogin(sys, st.cache, r.pending.user, r.phase.pwd, rowOk, foreignOk, unix) then []
      else [LM.Login(r.pending.user, peer.ip, unix, false)]
    case Verify(id, otp, peer, now, unix) =>
      var p := st.requests[id].pending;
      if RightCode(sys, st.cache, p.user, otp, p.secret, unix) then []
      else [LM.Login(p.user, peer.ip, unix, false)]
    case Finish(id, _, peer, now) => [LM.Login(st.requests[id].pending.user, peer.ip, now, true)]
    case Create(id, peer, now) => [LM.Login(st.requests[id].pending.user, peer.ip, now, true)]
    case _ => []
  }

  function AllTold(sys: System, st: State, steps: seq<Step>): seq<LM.Op>
    requires Run(sys, st, steps)
    decreases |steps|
  {
    if steps == [] then [] else Told(sys, st, steps[0]) + AllTold(sys, Do(sys, st, steps[0]), steps[1..])
  }

  lemma StepTells(sys: System, st: State, s: Step)
    requires Enabled(sys, st, s)
    ensures var ops := Told(sys, st, s);
      && |ops| <= 1
      && Do(sys, st, s).locks == (if ops == [] then st.locks else LM.After(sys.locks, st.locks, ops[0]))
      && st.clock <= Do(sys, st, s).clock
      && (ops != [] ==> st.clock <= LM.When(ops[0]) == Do(sys, st, s).clock)
  {
    if s.Judge? {
      var r := st.requests[s.id];
      LoginIsChecked(sys, st.cache, r.pending.user, r.phase.pwd, s.rowOk, s.foreignOk, s.now, s.unix);
    } else if s.Verify? {
      var p := st.requests[s.id].pending;
      CodeIsUsedUp(sys, st.cache, p.user, s.otp, p.secret, s.now, s.unix);
    }
  }

  /** Over every run the locks are what the lock manager makes of these calls, which come in the order of their
      times. */
  lemma {:induction false} LocksFollowLogins(sys: System, st: State, steps: seq<Step>)
    requires Run(sys, st, steps)
    ensures End(sys, st, steps).locks == LM.AfterAll(sys.locks, st.locks, AllTold(sys, st, steps))
    ensures LM.Ordered(st.clock, AllTold(sys, st, steps))
    decreases |steps|
  {
    if steps != [] {
      var ops, st' := Told(sys, st, steps[0]), Do(sys, st, steps[0]);
      var rest := AllTold(sys, st', steps[1..]);
      StepTells(sys, st, steps[0]);
      LocksFollowLogins(sys, st', steps[1..]);
      if ops == [] {
        assert ops + rest == rest;
        OrderedEarlier(st.clock, st'.clock, rest);
      } else {
        assert (ops + rest)[0] == ops[0] && (ops + rest)[1..] == rest;
      }
    }
  }

  lemma OrderedEarlier(from: int, later: int, ops: seq<LM.Op>)
    requires from <= later && LM.Ordered(later, ops)
    ensures LM.Ordered(from, ops)
    decreases |ops|
  {
    if ops != [] {
      OrderedEarlier(LM.Later(from, LM.When(ops[0])), LM.Later(later, LM.When(ops[0])), ops[1..]);
    }
  }
}
