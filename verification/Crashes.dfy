/** Calls that look at a session's connection twice, the second time without its mutex, and dereference nil when there
    is none any more: NewConn, which reads IsActive and then CSess, and the calls that close by token. */
module Crashes {
  import opened Wrappers
  import opened IpPool
  import opened LimitClient
  import opened Lifecycle

  datatype Looker = NewConnCall(c: ConnId) | CloseCall(k: CloserId)

  /** The call has seen a connection and will look again. */
  ghost predicate Between(st: State, w: Looker) {
    match w
    case NewConnCall(c) => c in st.conns && st.conns[c].phase.Replacing?
    case CloseCall(k) => k in st.closers && st.closers[k].Looked?
  }

  ghost function SessOf(st: State, w: Looker): SessId
    requires Between(st, w)
  {
    match w
    case NewConnCall(c) => st.conns[c].sess
    case CloseCall(k) => st.closers[k].sess
  }

  /** It looked again, and there was none. */
  ghost predicate Broke(st: State, w: Looker) {
    match w
    case NewConnCall(c) => c in st.conns && st.conns[c].phase.Crashed?
    case CloseCall(k) => k in st.closers && st.closers[k].Broken?
  }

  ghost predicate Gone(st: State, s: SessId) { s in st.sess && st.sess[s].cSess.None? }

  ghost predicate Doomed(st: State, w: Looker) { Between(st, w) && Gone(st, SessOf(st, w)) }

  /** It has dereferenced nil, or will with its next look. */
  ghost predicate Hit(st: State, w: Looker) { Doomed(st, w) || Broke(st, w) }

  /** If it is between its looks, there is no connection to be found. */
  ghost predicate Nothing(st: State, w: Looker) { Between(st, w) ==> Gone(st, SessOf(st, w)) }

  /** A Close takes the connection away between the two looks. */
  ghost predicate Loses(st: State, st': State, w: Looker) {
    Between(st, w) && SessOf(st, w) in st.sess && st.sess[SessOf(st, w)].cSess.Some? && Doomed(st', w)
  }

  /** The two fields of a session change together, whatever overlaps, and nobody works on a session that is not
      there. */
  ghost predicate Housed(st: State) {
    && (forall s :: s in st.sess ==> (st.sess[s].isActive <==> st.sess[s].cSess.Some?))
    && (forall c :: c in st.conns ==> st.conns[c].sess in st.sess)
    && (forall k :: k in st.closers && st.closers[k].Looked? ==> st.closers[k].sess in st.sess)
  }

  // ---------------------------------------------------------------- one step

  /** What one step does to a call that looks twice. */
  ghost predicate Tracks(st: State, st': State, w: Looker) {
    && (Hit(st', w) ==> Hit(st, w) || Loses(st, st', w))
    && (Doomed(st, w) ==> Broke(st', w) || (Between(st', w) && SessOf(st', w) == SessOf(st, w)))
    && (Broke(st, w) ==> Broke(st', w))
  }

  lemma MovingTracks(sys: System, st: State, step: Step, w: Looker)
    requires Housed(st) && Enabled(sys, st, step) && Moving(step)
    ensures Housed(Do(sys, st, step)) && Tracks(st, Do(sys, st, step), w)
  {
    MovingStays(sys, st, step);
    SessionMoves(sys, st, step);
  }

  lemma NewConnTracks(sys: System, st: State, step: Step, w: Looker)
    requires Housed(st) && Enabled(sys, st, step) && (Early(step) || Late(step))
    ensures Housed(Do(sys, st, step)) && Tracks(st, Do(sys, st, step), w)
  {
    if step.Start? {
      StartStays(sys, st, step);
    } else if Early(step) {
      EarlyStays(sys, st, step);
    } else {
      LateStays(sys, st, step);
    }
  }

  lemma NewSessionTracks(sys: System, st: State, step: Step, w: Looker)
    requires Housed(st) && Enabled(sys, st, step) && step.NewSession?
    ensures Housed(Do(sys, st, step)) && Tracks(st, Do(sys, st, step), w)
  {}

  lemma LookUpTracks(sys: System, st: State, step: Step, w: Looker)
    requires Housed(st) && Enabled(sys, st, step) && step.LookUp?
    ensures Housed(Do(sys, st, step)) && Tracks(st, Do(sys, st, step), w)
  {
    var st' := Do(sys, st, step);
    assert st'.conns == st.conns && st'.sess == st.sess && st'.closers == st.closers[step.k := st'.closers[step.k]];
  }

  lemma LookAgainTracks(sys: System, st: State, step: Step, w: Looker)
    requires Housed(st) && Enabled(sys, st, step) && step.LookAgain?
    ensures Housed(Do(sys, st, step)) && Tracks(st, Do(sys, st, step), w)
  {
    var st' := Do(sys, st, step);
    assert st'.conns == st.conns && st'.sess == st.sess && st'.closers == st.closers[step.k := st'.closers[step.k]];
  }

  /** A further look finds the connection that the session has now: the call looks once more, or closes that one. */
  lemma LooksAtThePresent(sys: System, st: State, step: Step)
    requires Enabled(sys, st, step) && step.LookAgain?
    ensures var k := Do(sys, st, step).closers[step.k];
            var present := st.sess[st.closers[step.k].sess].cSess;
      && (k.Broken? <==> present.None?)
      && (present.Some? ==> if step.more then k == st.closers[step.k] else k == Calls(present.value))
  {}

  lemma StepTracks(sys: System, st: State, step: Step, w: Looker)
    requires Housed(st) && Enabled(sys, st, step)
    ensures Housed(Do(sys, st, step)) && Tracks(st, Do(sys, st, step), w)
  {
    if Moving(step) {
      MovingTracks(sys, st, step, w);
    } else if Early(step) || Late(step) {
      NewConnTracks(sys, st, step, w);
    } else if step.NewSession? {
      NewSessionTracks(sys, st, step, w);
    } else if step.LookUp? {
      LookUpTracks(sys, st, step, w);
    } else {
      LookAgainTracks(sys, st, step, w);
    }
  }

  lemma {:induction false} AlwaysHoused(sys: System, run: seq<State>, i: nat)
    requires Behaviour(sys, run) && i < |run|
    ensures Housed(run[i])
  {
    if i > 0 {
      AlwaysHoused(sys, run, i - 1);
      assert Next(sys, run[i - 1], run[i - 1 + 1]);
      var step :| Takes(sys, run[i - 1], step, run[i]);
      StepTracks(sys, run[i - 1], step, NewConnCall(0));
    }
  }

  lemma RunTracks(sys: System, run: seq<State>, i: nat, w: Looker)
    requires Behaviour(sys, run) && 0 < i < |run|
    ensures Tracks(run[i - 1], run[i], w)
  {
    AlwaysHoused(sys, run, i - 1);
    assert Next(sys, run[i - 1], run[i - 1 + 1]);
    var step :| Takes(sys, run[i - 1], step, run[i]);
    StepTracks(sys, run[i - 1], step, w);
  }

  // ---------------------------------------------------------------- whole runs

  /** No other NewConn has installed a connection on the session while the call was still between its looks. */
  ghost predicate StaysGone(run: seq<State>, j: int, i: int, w: Looker)
    requires 0 <= j <= i < |run|
  {
    forall m :: j < m <= i ==> Nothing(run[m], w)
  }

  ghost predicate Cause(run: seq<State>, j: int, i: int, w: Looker)
    requires 0 <= j < i < |run|
  {
    Loses(run[j], run[j + 1], w) && StaysGone(run, j, i, w)
  }

  lemma StepHits(st: State, st': State, w: Looker)
    requires Tracks(st, st', w)
    ensures Hit(st, w) && Nothing(st', w) ==> Hit(st', w)
    ensures Hit(st', w) ==> Nothing(st', w)
  {}

  /** A call that keeps looking at a run is a sequence of states, each tracked from the one before. */
  ghost predicate Tracked(run: seq<State>, w: Looker) {
    forall i :: 0 < i < |run| ==> Tracks(run[i - 1], run[i], w)
  }

  lemma {:induction false} HitHasCause(run: seq<State>, i: nat, w: Looker)
    requires Tracked(run, w) && i < |run| && Hit(run[i], w) && !Hit(run[0], w)
    ensures exists j :: 0 <= j < i && Cause(run, j, i, w)
    decreases i
  {
    StepHits(run[i - 1], run[i], w);
    if Hit(run[i - 1], w) {
      HitHasCause(run, i - 1, w);
      var j :| 0 <= j < i - 1 && Cause(run, j, i - 1, w);
      assert Cause(run, j, i, w);
    } else {
      var j := i - 1;
      assert run[j + 1] == run[i];
      assert Cause(run, j, i, w);
    }
  }

  lemma {:induction false} CauseHits(run: seq<State>, j: nat, i: nat, w: Looker)
    requires Tracked(run, w) && j < i < |run| && Cause(run, j, i, w)
    ensures Hit(run[i], w)
    decreases i - j
  {
    if i == j + 1 {
      assert Hit(run[j + 1], w);
    } else {
      assert Cause(run, j, i - 1, w);
      CauseHits(run, j, i - 1, w);
      assert Nothing(run[i], w);
      StepHits(run[i - 1], run[i], w);
    }
  }

  /** In every interleaving a call has dereferenced nil, or will with its next look, exactly when a Close took the
      connection away between its two looks and no NewConn has installed another one since. */
  lemma CrashExactlyWhen(sys: System, run: seq<State>, i: nat, w: Looker)
    requires Behaviour(sys, run) && i < |run|
    ensures Hit(run[i], w) <==> exists j :: 0 <= j < i && Cause(run, j, i, w)
  {
    BehaviourIsTracked(sys, run, w);
    if Hit(run[i], w) {
      HitHasCause(run, i, w);
    }
    if j :| 0 <= j < i && Cause(run, j, i, w) {
      CauseHits(run, j, i, w);
    }
  }

  lemma BehaviourIsTracked(sys: System, run: seq<State>, w: Looker)
    requires Behaviour(sys, run)
    ensures Tracked(run, w) && !Hit(run[0], w)
  {
    forall i | 0 < i < |run| ensures Tracks(run[i - 1], run[i], w) {
      RunTracks(sys, run, i, w);
    }
  }

  // ---------------------------------------------------------------- NewConn calls that do not overlap

  /** Then nobody else can install a connection while one NewConn is between its looks. */
  lemma DoomedStays(sys: System, st: State, step: Step, c: ConnId)
    requires sys.serial && SerialInv(st.conns, st.sess) && Housed(st) && Enabled(sys, st, step)
    requires Doomed(st, NewConnCall(c))
    ensures Hit(Do(sys, st, step), NewConnCall(c))
  {
    if Moving(step) {
      MovingStays(sys, st, step);
      SessionMoves(sys, st, step);
      assert Pending(st.conns[c]);
    } else if step.Start? {
      StartStays(sys, st, step);
    } else if Early(step) {
      EarlyStays(sys, st, step);
    } else if Late(step) {
      LateStays(sys, st, step);
    }
  }

  lemma HitStays(sys: System, st: State, step: Step, w: Looker)
    requires sys.serial && SerialInv(st.conns, st.sess) && Housed(st) && Enabled(sys, st, step) && w.NewConnCall?
    requires Hit(st, w)
    ensures Hit(Do(sys, st, step), w)
  {
    StepTracks(sys, st, step, w);
    if Doomed(st, w) {
      DoomedStays(sys, st, step, w.c);
    }
  }

  lemma SerialNext(sys: System, run: seq<State>, i: nat, w: Looker)
    requires sys.serial && Behaviour(sys, run) && 0 < i < |run| && w.NewConnCall? && Hit(run[i - 1], w)
    ensures Hit(run[i], w)
  {
    AlwaysHoused(sys, run, i - 1);
    SessionsCorrespond(sys, run, i - 1);
    assert Next(sys, run[i - 1], run[i - 1 + 1]);
    var step :| Takes(sys, run[i - 1], step, run[i]);
    HitStays(sys, run[i - 1], step, w);
  }

  /** Once hit, always hit. */
  ghost predicate Sticky(run: seq<State>, w: Looker) {
    forall i :: 0 < i < |run| && Hit(run[i - 1], w) ==> Hit(run[i], w)
  }

  lemma {:induction false} SerialCause(run: seq<State>, j: nat, i: nat, w: Looker)
    requires Tracked(run, w) && Sticky(run, w) && j < i < |run| && Loses(run[j], run[j + 1], w)
    ensures Cause(run, j, i, w) && Hit(run[i], w)
    decreases i - j
  {
    if i == j + 1 {
      assert Hit(run[j + 1], w) && Nothing(run[j + 1], w);
    } else {
      SerialCause(run, j, i - 1, w);
      StepHits(run[i - 1], run[i], w);
    }
  }

  /** Without overlapping NewConn calls on one session, NewConn dereferences nil exactly when a Close came between its
      look at IsActive and its look at CSess. */
  lemma SerialCrashExactlyWhen(sys: System, run: seq<State>, i: nat, c: ConnId)
    requires sys.serial && Behaviour(sys, run) && i < |run|
    ensures Hit(run[i], NewConnCall(c)) <==> exists j :: 0 <= j < i && Loses(run[j], run[j + 1], NewConnCall(c))
  {
    var w := NewConnCall(c);
    CrashExactlyWhen(sys, run, i, w);
    if j :| 0 <= j < i && Loses(run[j], run[j + 1], w) {
      BehaviourIsTracked(sys, run, w);
      forall m | 0 < m < |run| && Hit(run[m - 1], w) ensures Hit(run[m], w) {
        SerialNext(sys, run, m, w);
      }
      SerialCause(run, j, i, w);
    }
  }

  // ---------------------------------------------------------------- the runs

  /** One connection with a slot. */
  lemma OneSlotted(sys: System) returns (run: seq<State>, st: State)
    requires Roomy(sys)
    ensures Reaches(sys, run, st)
    ensures st.pool == Pool(map[], 1, {}, sys.cfg.min) && st.conns == map[0 := Conn(0, GUEST, Slotted)]
    ensures st.sess == map[0 := Sess("token", "dtls", false, None, None)] && st.sessions == map["token" := 0]
    ensures st.closers == map[]
  {
    st := State(Pool(map[], 1, {}, sys.cfg.min), map[LIMIT_ALL_KEY := 0], map[], map[], map[], map[], map[]);
    run := [st];
    run := Extend(sys, run, st, NewSession(0, "token", "dtls"));
    st := Do(sys, st, NewSession(0, "token", "dtls"));
    run := Extend(sys, run, st, Start(0, 0, GUEST));
    st := Do(sys, st, Start(0, 0, GUEST));
    run := Extend(sys, run, st, TakeSlot(0));
    st := Do(sys, st, TakeSlot(0));
  }

  /** And installed. */
  lemma OneLive(sys: System) returns (run: seq<State>, st: State)
    requires Roomy(sys)
    ensures Reaches(sys, run, st)
    ensures st.conns.Keys == {0} && st.conns[0].phase.Live? && st.conns[0].sess == 0
    ensures 0 in st.sess && st.sess[0].isActive && st.sess[0].cSess.Some? && st.sess[0].mux.None?
    ensures st.sessions == map["token" := 0] && st.closers == map[]
  {
    run, st := OneSlotted(sys);
    FirstAddress(sys.cfg, st.pool);
    run := Extend(sys, run, st, AcquireAddress(0, 0, []));
    st := Do(sys, st, AcquireAddress(0, 0, []));
    run := Extend(sys, run, st, LookupGroup(0, true));
    st := Do(sys, st, LookupGroup(0, true));
    run := Extend(sys, run, st, Install(0));
    st := Do(sys, st, Install(0));
  }

  /** The crash of NewConn is reachable in every such system, also a serial one. */
  lemma CrashIsReachable(sys: System) returns (run: seq<State>)
    requires Roomy(sys)
    ensures Behaviour(sys, run) && Broke(run[|run| - 1], NewConnCall(1))
  {
    var st;
    run, st := OneLive(sys);
    run := Extend(sys, run, st, Start(1, 0, GUEST));
    st := Do(sys, st, Start(1, 0, GUEST));
    run := Extend(sys, run, st, Mark(0));
    st := Do(sys, st, Mark(0));
    run := Extend(sys, run, st, PickOld(1));
  }

  /** So is that of CloseSess (`drop`) and of CloseCSess, at any of their looks. */
  lemma CloserCrashIsReachable(sys: System, drop: bool, more: bool) returns (run: seq<State>)
    requires Roomy(sys)
    ensures Behaviour(sys, run) && Broke(run[|run| - 1], CloseCall(0))
  {
    var st;
    run, st := OneLive(sys);
    run := Extend(sys, run, st, LookUp(0, "token", drop));
    st := Do(sys, st, LookUp(0, "token", drop));
    run := Extend(sys, run, st, Mark(0));
    st := Do(sys, st, Mark(0));
    run := Extend(sys, run, st, LookAgain(0, more));
  }

  /** An overlapping NewConn that installs its connection in time: a third call loses the connection between its looks
      and goes on with the other one. */
  lemma OverlapRescues(sys: System) returns (run: seq<State>, j: nat)
    requires Roomy(sys) && !sys.serial
    ensures Behaviour(sys, run) && j + 1 < |run| && Loses(run[j], run[j + 1], NewConnCall(2))
    ensures 2 in run[|run| - 1].conns && run[|run| - 1].conns[2].phase == Awaiting(1)
  {
    var st;
    run, st := TwoGrouped(sys);
    run := Extend(sys, run, st, Install(0));
    st := Do(sys, st, Install(0));
    run := Extend(sys, run, st, Start(2, 0, GUEST));
    st := Do(sys, st, Start(2, 0, GUEST));
    j := |run| - 1;
    var was := st;
    run := Extend(sys, run, st, Mark(0));
    st := Do(sys, st, Mark(0));
    assert run[j] == was && run[j + 1] == st;
    run := Closed(sys, run, st);
  }

  /** The rest of that Close, the other installation and the second look. */
  lemma Closed(sys: System, before: seq<State>, st0: State) returns (run: seq<State>)
    requires Reaches(sys, before, st0) && {0, 1, 2} <= st0.conns.Keys
    requires st0.conns[0].phase.Marked? && st0.conns[1].phase.Grouped? && st0.conns[2].phase.Replacing?
    requires st0.conns[0].sess == st0.conns[1].sess == st0.conns[2].sess && st0.conns[0].sess in st0.sess
    ensures Behaviour(sys, run) && before <= run
    ensures 2 in run[|run| - 1].conns && run[|run| - 1].conns[2].phase == Awaiting(1)
  {
    var st := st0;
    run := Extend(sys, before, st, ReleaseAddress(0, 0));
    st := Do(sys, st, ReleaseAddress(0, 0));
    run := Extend(sys, run, st, FreeSlot(0));
    st := Do(sys, st, FreeSlot(0));
    run := Extend(sys, run, st, Install(1));
    st := Do(sys, st, Install(1));
    run := Extend(sys, run, st, PickOld(2));
  }
}
