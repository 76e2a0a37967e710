/** Every interleaving of NewConn, Close and the calls that close by token, over any number of sessions.

    One step is one critical section of the code: a call of LimitClient, AcquireIp or ReleaseIp, one section under a
    session's mutex, or one section under sessMux. Between two steps of a connection any other steps may happen. */
module Lifecycle {
  import opened Wrappers
  import opened IpPool
  import opened LimitClient

  type SessId = nat
  type ConnId = nat

  /** How far one call of NewConn, and later Close on its result, has come. */
  datatype Phase =
    | Replacing                // the session was active; its connection has not been looked up yet
    | Awaiting(former: ConnId)    // inside Close of that connection
    | Ready                    // holds nothing yet
    | Slotted                  // has a client slot
    | NoAddress                // has a slot, AcquireIp answered nil
    | Addressed(ip: Addr)      // has a slot and an address
    | Grouped(ip: Addr)        // the connection is built but not installed
    | Live(ip: Addr)           // installed; closeOnce is unused
    | Marked(ip: Addr)         // in Close: the session is marked, the address not yet released
    | Freeing                  // in Close: the address is released, the slot not yet
    | Closed
    | Refused                  // returned nil holding nothing
    | Abandoned(ip: Addr)      // the group lookup failed: returned nil still holding slot and address
    | Crashed                  // Close was called on a CSess another Close had already set to nil

  datatype Conn = Conn(sess: SessId, client: Client, phase: Phase)

  /** `mux` names the connection whose Close holds the session's mutex across several steps. */
  datatype Sess = Sess(token: string, dtlsSid: string, isActive: bool, cSess: Option<ConnId>, mux: Option<ConnId>)

  /** How far one call of CloseSess or CloseCSess has come. */
  datatype Closer =
    | Looked(sess: SessId)     // it has seen a connection, without the session's mutex, and will look again
    | Calls(conn: ConnId)      // it calls Close on that connection
    | Idle                     // there was none
    | Broken                   // there was one, and none any more

  type CloserId = nat

  datatype State = State(pool: Pool, counters: Counters, conns: map<ConnId, Conn>, sess: map<SessId, Sess>,
                         sessions: map<string, SessId>, dtlsIds: map<string, string>, closers: map<CloserId, Closer>)

  /** Fixed configuration. In a serial system NewConn calls on one session do not overlap. */
  datatype System = System(cfg: Config, limits: Limits, serial: bool)

  datatype Step =
    | NewSession(s: SessId, token: string, dtlsSid: string)
    | LookUp(k: CloserId, token: string, drop: bool)        // CloseSess, which drops the session, or CloseCSess
    | LookAgain(k: CloserId, more: bool)                    // for the logout code, or to call Close
    | Start(c: ConnId, s: SessId, client: Client)
    | PickOld(c: ConnId)
    | Awaited(c: ConnId)
    | TakeSlot(c: ConnId)
    | AcquireAddress(c: ConnId, now: int, found: seq<nat>)
    | GiveSlotBack(c: ConnId)
    | LookupGroup(c: ConnId, known: bool)
    | Install(c: ConnId)
    | Mark(c: ConnId)                                       // the first Close, whoever calls it
    | ReleaseAddress(c: ConnId, now: int)
    | FreeSlot(c: ConnId)

  predicate HasSlot(x: Conn) {
    x.phase.Slotted? || x.phase.NoAddress? || x.phase.Freeing? || HasIp(x)
  }

  predicate HasIp(x: Conn) {
    x.phase.Addressed? || x.phase.Grouped? || x.phase.Live? || x.phase.Marked? || x.phase.Abandoned?
  }

  /** NewConn is still running. */
  predicate Pending(x: Conn) {
    x.phase.Replacing? || x.phase.Awaiting? || PastOld(x)
  }

  /** NewConn is still running and has dealt with the session's former connection. */
  predicate PastOld(x: Conn) {
    x.phase.Ready? || x.phase.Slotted? || x.phase.NoAddress? || x.phase.Addressed? || x.phase.Grouped?
  }

  // ---------------------------------------------------------------- the steps

  ghost predicate Enabled(sys: System, st: State, step: Step) {
    match step
    case NewSession(s, token, dtlsSid) => s !in st.sess && token !in st.sessions && dtlsSid !in st.dtlsIds
    case LookUp(k, token, _) => k !in st.closers && token in st.sessions && st.sessions[token] in st.sess
    case LookAgain(k, _) => k in st.closers && st.closers[k].Looked? && st.closers[k].sess in st.sess
    case Start(c, s, _) =>
      && c !in st.conns && s in st.sess && st.sess[s].mux.None?
      && (sys.serial ==> forall d :: d in st.conns && st.conns[d].sess == s ==> !Pending(st.conns[d]))
    case PickOld(c) => c in st.conns && st.conns[c].phase.Replacing? && st.conns[c].sess in st.sess
    case Awaited(c) =>
      && c in st.conns && st.conns[c].phase.Awaiting?
      && st.conns[c].phase.former in st.conns && st.conns[st.conns[c].phase.former].phase.Closed?
    case TakeSlot(c) => c in st.conns && st.conns[c].phase.Ready?
    case AcquireAddress(c, _, found) =>
      && c in st.conns && st.conns[c].phase.Slotted?
      && Valid(sys.cfg, st.pool) && ValidFind(st.pool.rows, st.conns[c].client.username, found)
    case GiveSlotBack(c) => c in st.conns && st.conns[c].phase.NoAddress?
    case LookupGroup(c, _) => c in st.conns && st.conns[c].phase.Addressed?
    case Install(c) =>
      && c in st.conns && st.conns[c].phase.Grouped?
      && st.conns[c].sess in st.sess && st.sess[st.conns[c].sess].mux.None?
    case Mark(c) =>
      && c in st.conns && st.conns[c].phase.Live?
      && st.conns[c].sess in st.sess && st.sess[st.conns[c].sess].mux.None?
    case ReleaseAddress(c, _) => c in st.conns && st.conns[c].phase.Marked?
    case FreeSlot(c) => c in st.conns && st.conns[c].phase.Freeing? && st.conns[c].sess in st.sess
  }

  /** The steps that are no connection's. */
  predicate TableStep(step: Step) { step.NewSession? || step.LookUp? || step.LookAgain? }

  function Move(st: State, c: ConnId, phase: Phase): State
    requires c in st.conns
  {
    st.(conns := st.conns[c := st.conns[c].(phase := phase)])
  }

  function SetSess(st: State, s: SessId, sess: Sess): State { st.(sess := st.sess[s := sess]) }

  ghost function Do(sys: System, st: State, step: Step): State
    requires Enabled(sys, st, step)
  {
    match step
    case NewSession(s, token, dtlsSid) =>
      SetSess(st, s, Sess(token, dtlsSid, false, None, None))
        .(sessions := st.sessions[token := s], dtlsIds := st.dtlsIds[dtlsSid := token])
    case LookUp(k, token, drop) =>
      var s := st.sessions[token];
      var st1 := st.(closers := st.closers[k := if st.sess[s].cSess.Some? then Looked(s) else Idle]);
      if drop then st1.(sessions := st.sessions - {token}, dtlsIds := st.dtlsIds - {st.sess[s].dtlsSid}) else st1
    case LookAgain(k, more) =>
      st.(closers := st.closers[k :=
        match st.sess[st.closers[k].sess].cSess
        case None => Broken
        case Some(c) => if more then st.closers[k] else Calls(c)])
    case Start(c, s, client) =>
      st.(conns := st.conns[c := Conn(s, client, if st.sess[s].isActive then Replacing else Ready)])
    case PickOld(c) =>
      (match st.sess[st.conns[c].sess].cSess
       case None => Move(st, c, Crashed)
       case Some(former) => Move(st, c, Awaiting(former)))
    case Awaited(c) => Move(st, c, Ready)
    case TakeSlot(c) =>
      var (counters, ok) := Limited(sys.limits, st.counters, st.conns[c].client.username, false);
      Move(st.(counters := counters), c, if ok then Slotted else Refused)
    case AcquireAddress(c, now, found) =>
      var o := Acquire(sys.cfg, st.pool, st.conns[c].client, now, found);
      Move(st.(pool := o.pool), c, if o.ip.Some? then Addressed(o.ip.value) else NoAddress)
    case GiveSlotBack(c) =>
      Move(st.(counters := Limited(sys.limits, st.counters, st.conns[c].client.username, true).0), c, Refused)
    case LookupGroup(c, ok) =>
      Move(st, c, if ok then Grouped(st.conns[c].phase.ip) else Abandoned(st.conns[c].phase.ip))
    case Install(c) =>
      var s := st.conns[c].sess;
      SetSess(Move(st, c, Live(st.conns[c].phase.ip)), s, st.sess[s].(isActive := true, cSess := Some(c)))
    case Mark(c) =>
      var s := st.conns[c].sess;
      SetSess(Move(st, c, Marked(st.conns[c].phase.ip)), s,
              st.sess[s].(isActive := false, cSess := None, mux := Some(c)))
    case ReleaseAddress(c, now) =>
      Move(st.(pool := Release(st.pool, st.conns[c].phase.ip, now)), c, Freeing)
    case FreeSlot(c) =>
      var s := st.conns[c].sess;
      SetSess(Move(st.(counters := Limited(sys.limits, st.counters, st.conns[c].client.username, true).0), c, Closed),
              s, st.sess[s].(mux := None))
  }

  /** Before the first session: some table, nobody connected. */
  ghost predicate Init(sys: System, st: State) {
    && Valid(sys.cfg, st.pool) && st.pool.active == {}
    && st.counters == map[LIMIT_ALL_KEY := 0]
    && st.conns == map[] && st.sess == map[] && st.sessions == map[] && st.dtlsIds == map[] && st.closers == map[]
  }

  ghost predicate Takes(sys: System, st: State, step: Step, st': State) {
    Enabled(sys, st, step) && st' == Do(sys, st, step)
  }

  ghost predicate Next(sys: System, st: State, st': State) {
    exists step :: Takes(sys, st, step, st')
  }

  ghost predicate Behaviour(sys: System, run: seq<State>) {
    && run != [] && Init(sys, run[0])
    && forall i :: 0 <= i < |run| - 1 ==> Next(sys, run[i], run[i + 1])
  }

  // ---------------------------------------------------------------- what a step leaves alone

  /** The first steps of NewConn. */
  predicate Early(step: Step) { step.Start? || step.PickOld? || step.Awaited? || step.TakeSlot? }

  predicate Late(step: Step) { step.AcquireAddress? || step.GiveSlotBack? || step.LookupGroup? || step.ReleaseAddress? }

  /** The steps under a session's mutex. */
  predicate Moving(step: Step) { step.Install? || step.Mark? || step.FreeSlot? }

  /** Only the connection `c` changes, and keeps its session and its client; the tables stay. */
  ghost predicate OnlyConn(st: State, st': State, c: ConnId) {
    && c in st'.conns && st'.conns == st.conns[c := st'.conns[c]]
    && (c in st.conns ==> st'.conns[c].sess == st.conns[c].sess && st'.conns[c].client == st.conns[c].client)
    && st'.sessions == st.sessions && st'.dtlsIds == st.dtlsIds && st'.closers == st.closers
  }

  lemma StartStays(sys: System, st: State, step: Step)
    requires Enabled(sys, st, step) && step.Start?
    ensures var st' := Do(sys, st, step);
            var x := st'.conns[step.c];
      && OnlyConn(st, st', step.c) && st'.pool == st.pool && st'.sess == st.sess && step.c !in st.conns
      && x.sess in st.sess && (x.phase.Ready? || (x.phase.Replacing? && st.sess[x.sess].isActive))
  {}

  lemma EarlyStays(sys: System, st: State, step: Step)
    requires Enabled(sys, st, step) && Early(step) && !step.Start?
    ensures var st' := Do(sys, st, step);
      && OnlyConn(st, st', step.c) && st'.pool == st.pool && st'.sess == st.sess && step.c in st.conns
      && var x, y := st'.conns[step.c], st.conns[step.c];
         && !Closing(x) && !HasIp(x) && !x.phase.Replacing?
         && !Closing(y) && !HasIp(y) && !y.phase.Crashed?
         && (x.phase.Crashed? <==> step.PickOld? && st.sess[x.sess].cSess.None?)
         && (y.phase.Replacing? <==> step.PickOld?)
  {}

  lemma LateStays(sys: System, st: State, step: Step)
    requires Enabled(sys, st, step) && Late(step)
    ensures var st' := Do(sys, st, step);
      && OnlyConn(st, st', step.c) && step.c in st.conns && st'.sess == st.sess
      && (Closing(st'.conns[step.c]) <==> Closing(st.conns[step.c]))
      && !st'.conns[step.c].phase.Replacing? && !st'.conns[step.c].phase.Crashed?
      && !st.conns[step.c].phase.Replacing? && !st.conns[step.c].phase.Crashed?
  {}

  lemma LateKeepsAddress(sys: System, st: State, step: Step)
    requires Enabled(sys, st, step) && (step.GiveSlotBack? || step.LookupGroup?)
    ensures var st' := Do(sys, st, step);
      && st'.pool == st.pool && HasIp(st'.conns[step.c]) == HasIp(st.conns[step.c])
      && (HasIp(st.conns[step.c]) ==> st'.conns[step.c].phase.ip == st.conns[step.c].phase.ip)
  {}

  lemma MovingStays(sys: System, st: State, step: Step)
    requires Enabled(sys, st, step) && Moving(step)
    ensures var st' := Do(sys, st, step);
      && OnlyConn(st, st', step.c) && step.c in st.conns && st'.pool == st.pool
      && HasIp(st'.conns[step.c]) == HasIp(st.conns[step.c])
      && (HasIp(st.conns[step.c]) ==> st'.conns[step.c].phase.ip == st.conns[step.c].phase.ip)
      && !st'.conns[step.c].phase.Replacing? && !st'.conns[step.c].phase.Crashed?
      && !st.conns[step.c].phase.Replacing? && !st.conns[step.c].phase.Crashed?
  {}

  /** The session that such a step changes. */
  lemma SessionMoves(sys: System, st: State, step: Step)
    requires Enabled(sys, st, step) && Moving(step)
    ensures step.c in st.conns
    ensures var s := st.conns[step.c].sess;
            var sess := Do(sys, st, step).sess;
      && s in st.sess && s in sess && sess == st.sess[s := sess[s]]
      && sess[s].token == st.sess[s].token && sess[s].dtlsSid == st.sess[s].dtlsSid
      && (if step.Install? then sess[s].isActive && sess[s].cSess == Some(step.c) && sess[s].mux.None?
          else if step.Mark? then !sess[s].isActive && sess[s].cSess.None? && sess[s].mux == Some(step.c)
          else sess[s].isActive == st.sess[s].isActive && sess[s].cSess == st.sess[s].cSess && sess[s].mux.None?)
  {}

  // ---------------------------------------------------------------- addresses and slots

  ghost function Held(conns: map<ConnId, Conn>): set<Addr> {
    set c | c in conns && HasIp(conns[c]) :: conns[c].phase.ip
  }

  function Slot(x: Conn): multiset<string> {
    if HasSlot(x) then multiset{x.client.username} else multiset{}
  }

  /** The users of the connections holding a slot, once per connection. */
  ghost function Slots(conns: map<ConnId, Conn>): multiset<string> {
    if conns == map[] then multiset{} else
      var c :| c in conns;
      Slot(conns[c]) + Slots(conns - {c})
  }

  lemma {:induction false} SlotsSplit(conns: map<ConnId, Conn>, c: ConnId)
    requires c in conns
    ensures Slots(conns) == Slot(conns[c]) + Slots(conns - {c})
    decreases |conns|
  {
    var d :| d in conns && Slots(conns) == Slot(conns[d]) + Slots(conns - {d});
    if d != c {
      var x, y := Slot(conns[c]), Slot(conns[d]);
      var rest := conns - {c} - {d};
      assert conns - {d} - {c} == rest;
      assert Slots(conns - {d}) == x + Slots(rest) by { SlotsSplit(conns - {d}, c); }
      assert Slots(conns - {c}) == y + Slots(rest) by { SlotsSplit(conns - {c}, d); }
      assert y + (x + Slots(rest)) == x + (y + Slots(rest));
    }
  }

  lemma SlotsUpdate(conns: map<ConnId, Conn>, c: ConnId, x: Conn)
    ensures Slots(conns[c := x]) == Slots(conns - {c}) + Slot(x)
    ensures c in conns ==> Slots(conns) == Slots(conns - {c}) + Slot(conns[c])
  {
    SlotsSplit(conns[c := x], c);
    assert conns[c := x] - {c} == conns - {c};
    if c in conns {
      SlotsSplit(conns, c);
    }
  }

  ghost predicate AddressesAgree(st: State) {
    && st.pool.active == Held(st.conns)
    && forall c, d :: (c in st.conns && d in st.conns && HasIp(st.conns[c]) && HasIp(st.conns[d])
                       && st.conns[c].phase.ip == st.conns[d].phase.ip) ==> c == d
  }

  ghost predicate SlotsAgree(sys: System, st: State) {
    Exact(sys.limits, st.counters, Slots(st.conns))
  }

  ghost predicate ResourceInv(sys: System, st: State) {
    Valid(sys.cfg, st.pool) && AddressesAgree(st) && SlotsAgree(sys, st)
  }

  lemma AcquireStep(sys: System, st: State, c: ConnId, now: int, found: seq<nat>)
    requires Valid(sys.cfg, st.pool) && AddressesAgree(st) && Enabled(sys, st, AcquireAddress(c, now, found))
    ensures var st' := Do(sys, st, AcquireAddress(c, now, found)); Valid(sys.cfg, st'.pool) && AddressesAgree(st')
  {
    var st' := Do(sys, st, AcquireAddress(c, now, found));
    var o := Acquire(sys.cfg, st.pool, st.conns[c].client, now, found);
    assert Safe(sys.cfg, st.pool, o) by { AcquireIsSafe(sys.cfg, st.pool, st.conns[c].client, now, found); }
    if o.ip.Some? {
      NewHolder(st.conns, st'.conns, c);
    } else {
      SameHeld(st.conns, st'.conns, c);
    }
  }

  lemma ReleaseStep(sys: System, st: State, c: ConnId, now: int)
    requires Valid(sys.cfg, st.pool) && AddressesAgree(st) && Enabled(sys, st, ReleaseAddress(c, now))
    ensures var st' := Do(sys, st, ReleaseAddress(c, now)); Valid(sys.cfg, st'.pool) && AddressesAgree(st')
  {
    var st' := Do(sys, st, ReleaseAddress(c, now));
    var ip := st.conns[c].phase.ip;
    ReleaseIsSafe(sys.cfg, st.pool, ip, now);
    NewHolder(st'.conns, st.conns, c);
    assert ip !in Held(st'.conns);
  }

  /** The connection a step works on, after the step. */
  ghost function Worker(sys: System, st: State, step: Step): (x: Conn)
    requires Enabled(sys, st, step) && !TableStep(step)
    ensures Do(sys, st, step).conns == st.conns[step.c := x]
  {
    Do(sys, st, step).conns[step.c]
  }

  /** The steps that neither take nor give an address. */
  lemma AddressStays(sys: System, st: State, step: Step)
    requires Enabled(sys, st, step) && !TableStep(step) && !step.AcquireAddress? && !step.ReleaseAddress?
    ensures var st' := Do(sys, st, step);
      && OnlyConn(st, st', step.c) && st'.pool == st.pool
      && (if step.c in st.conns then
            && HasIp(st'.conns[step.c]) == HasIp(st.conns[step.c])
            && (HasIp(st.conns[step.c]) ==> st'.conns[step.c].phase.ip == st.conns[step.c].phase.ip)
          else !HasIp(st'.conns[step.c]))
  {
    if step.Start? {
      StartStays(sys, st, step);
    } else if Early(step) {
      EarlyStays(sys, st, step);
    } else if Moving(step) {
      MovingStays(sys, st, step);
    } else {
      LateStays(sys, st, step);
      LateKeepsAddress(sys, st, step);
    }
  }

  lemma AddressStep(sys: System, st: State, step: Step)
    requires Valid(sys.cfg, st.pool) && AddressesAgree(st) && Enabled(sys, st, step)
    ensures Valid(sys.cfg, Do(sys, st, step).pool) && AddressesAgree(Do(sys, st, step))
  {
    if step.AcquireAddress? {
      AcquireStep(sys, st, step.c, step.now, step.found);
    } else if step.ReleaseAddress? {
      ReleaseStep(sys, st, step.c, step.now);
    } else if !TableStep(step) {
      AddressStays(sys, st, step);
      SameHeld(st.conns, Do(sys, st, step).conns, step.c);
    }
  }

  /** `c` gains an address: the other connections hold what they held. */
  lemma NewHolder(conns: map<ConnId, Conn>, conns': map<ConnId, Conn>, c: ConnId)
    requires c in conns && c in conns' && conns' == conns[c := conns'[c]] && !HasIp(conns[c]) && HasIp(conns'[c])
    ensures Held(conns') == Held(conns) + {conns'[c].phase.ip}
  {
    forall ip | ip in Held(conns) ensures ip in Held(conns') {
      var d :| d in conns && HasIp(conns[d]) && conns[d].phase.ip == ip;
      assert d in conns' && HasIp(conns'[d]) && conns'[d].phase.ip == ip;
    }
    forall ip | ip in Held(conns') && ip != conns'[c].phase.ip ensures ip in Held(conns) {
      var d :| d in conns' && HasIp(conns'[d]) && conns'[d].phase.ip == ip;
      assert d in conns && HasIp(conns[d]) && conns[d].phase.ip == ip;
    }
  }

  /** A step of `c` that neither takes nor gives an address. */
  lemma SameHeld(conns: map<ConnId, Conn>, conns': map<ConnId, Conn>, c: ConnId)
    requires c in conns' && conns' == conns[c := conns'[c]]
    requires c in conns ==> HasIp(conns'[c]) == HasIp(conns[c])
    requires c !in conns ==> !HasIp(conns'[c])
    requires c in conns && HasIp(conns[c]) ==> conns'[c].phase.ip == conns[c].phase.ip
    ensures Held(conns') == Held(conns)
  {
    forall ip | ip in Held(conns) ensures ip in Held(conns') {
      var d :| d in conns && HasIp(conns[d]) && conns[d].phase.ip == ip;
      assert d in conns' && HasIp(conns'[d]) && conns'[d].phase.ip == ip;
    }
    forall ip | ip in Held(conns') ensures ip in Held(conns) {
      var d :| d in conns' && HasIp(conns'[d]) && conns'[d].phase.ip == ip;
      assert d in conns && HasIp(conns[d]) && conns[d].phase.ip == ip;
    }
  }

  lemma SlotsTaken(conns: map<ConnId, Conn>, c: ConnId, phase: Phase)
    requires c in conns && !HasSlot(conns[c])
    ensures var x := conns[c].(phase := phase); Slots(conns[c := x]) == Slots(conns) + Slot(x)
  {
    SlotsUpdate(conns, c, conns[c].(phase := phase));
  }

  lemma TakeSlotStep(limits: Limits, counters: Counters, conns: map<ConnId, Conn>, c: ConnId)
    requires Exact(limits, counters, Slots(conns)) && c in conns && !HasSlot(conns[c])
    ensures var (n, ok) := Limited(limits, counters, conns[c].client.username, false);
            Exact(limits, n, Slots(conns[c := conns[c].(phase := if ok then Slotted else Refused)]))
  {
    var user := conns[c].client.username;
    OpenIsExact(limits, counters, Slots(conns), user);
    if Limited(limits, counters, user, false).1 {
      SlotsTaken(conns, c, Slotted);
    } else {
      SlotsTaken(conns, c, Refused);
    }
  }

  /** Giving a slot back, after AcquireIp answered nil or at the end of Close. */
  lemma GiveBackStep(limits: Limits, counters: Counters, conns: map<ConnId, Conn>, c: ConnId, phase: Phase)
    requires Exact(limits, counters, Slots(conns)) && c in conns
    requires HasSlot(conns[c]) && !HasSlot(conns[c].(phase := phase))
    ensures Exact(limits, Limited(limits, counters, conns[c].client.username, true).0,
                  Slots(conns[c := conns[c].(phase := phase)]))
  {
    var user := conns[c].client.username;
    SlotsUpdate(conns, c, conns[c].(phase := phase));
    CloseIsExact(limits, counters, Slots(conns), user);
    assert Slots(conns) - multiset{user} == Slots(conns - {c});
  }

  lemma SameSlots(conns: map<ConnId, Conn>, c: ConnId, x: Conn)
    requires if c in conns then Slot(x) == Slot(conns[c]) else Slot(x) == multiset{}
    ensures Slots(conns[c := x]) == Slots(conns)
  {
    SlotsUpdate(conns, c, x);
    if c !in conns {
      assert conns - {c} == conns;
    }
  }

  lemma WorkerSlot(sys: System, st: State, step: Step)
    requires Enabled(sys, st, step) && !TableStep(step)
    requires !step.TakeSlot? && !step.GiveSlotBack? && !step.FreeSlot?
    ensures var x := Worker(sys, st, step);
            if step.c in st.conns then HasSlot(x) == HasSlot(st.conns[step.c]) && x.client == st.conns[step.c].client
            else !HasSlot(x)
    ensures Do(sys, st, step).counters == st.counters
  {}

  lemma QuietStep(sys: System, st: State, step: Step)
    requires Enabled(sys, st, step) && !step.TakeSlot? && !step.GiveSlotBack? && !step.FreeSlot?
    ensures Do(sys, st, step).counters == st.counters && Slots(Do(sys, st, step).conns) == Slots(st.conns)
  {
    if !TableStep(step) {
      WorkerSlot(sys, st, step);
      SameSlots(st.conns, step.c, Worker(sys, st, step));
    }
  }

  lemma SlotStep(sys: System, st: State, step: Step)
    requires SlotsAgree(sys, st) && Enabled(sys, st, step)
    ensures SlotsAgree(sys, Do(sys, st, step))
  {
    if step.TakeSlot? {
      TakeSlotStep(sys.limits, st.counters, st.conns, step.c);
    } else if step.GiveSlotBack? {
      GiveBackStep(sys.limits, st.counters, st.conns, step.c, Refused);
    } else if step.FreeSlot? {
      GiveBackStep(sys.limits, st.counters, st.conns, step.c, Closed);
    } else {
      QuietStep(sys, st, step);
    }
  }

  /** In every reachable state the active set is exactly what connections hold, no address is held twice, and the
      counters are exactly the slots held and never above the limits. */
  lemma {:induction false} ResourcesAreExact(sys: System, run: seq<State>, i: nat)
    requires Behaviour(sys, run) && i < |run|
    ensures ResourceInv(sys, run[i])
  {
    if i == 0 {
      assert Slots(run[0].conns) == multiset{};
    } else {
      ResourcesAreExact(sys, run, i - 1);
      assert Next(sys, run[i - 1], run[i - 1 + 1]);
      var step :| Takes(sys, run[i - 1], step, run[i]);
      AddressStep(sys, run[i - 1], step);
      SlotStep(sys, run[i - 1], step);
    }
  }

  // ---------------------------------------------------------------- the same, in numbers

  ghost function SlotHolders(conns: map<ConnId, Conn>): set<ConnId> {
    set c | c in conns && HasSlot(conns[c])
  }

  ghost function SlotHoldersOf(conns: map<ConnId, Conn>, user: string): set<ConnId> {
    set c | c in conns && HasSlot(conns[c]) && conns[c].client.username == user
  }

  lemma {:induction false} SlotsAreCounted(conns: map<ConnId, Conn>, user: string)
    ensures |Slots(conns)| == |SlotHolders(conns)| && Slots(conns)[user] == |SlotHoldersOf(conns, user)|
    decreases |conns|
  {
    if conns == map[] {
      assert SlotHolders(conns) == {} && SlotHoldersOf(conns, user) == {};
    } else {
      var c :| c in conns;
      var x, rest := conns[c], conns - {c};
      assert Slots(conns) == Slot(x) + Slots(rest) by { SlotsSplit(conns, c); }
      SlotsAreCounted(rest, user);
      HolderSplit(conns, c, user);
    }
  }

  lemma HolderSplit(conns: map<ConnId, Conn>, c: ConnId, user: string)
    requires c in conns
    ensures |SlotHolders(conns)| == |SlotHolders(conns - {c})| + |Slot(conns[c])|
    ensures |SlotHoldersOf(conns, user)| == |SlotHoldersOf(conns - {c}, user)| + Slot(conns[c])[user]
  {
    var x, rest := conns[c], conns - {c};
    assert SlotHolders(conns) == SlotHolders(rest) + (if HasSlot(x) then {c} else {});
    assert SlotHoldersOf(conns, user) ==
           SlotHoldersOf(rest, user) + (if HasSlot(x) && x.client.username == user then {c} else {});
  }

  /** Conservation over all interleavings: the active set is what connections hold, one address per holder and inside
      the pool; the global counter is the number of slot holders, each user's counter the number of that user's. */
  lemma ConservationOfAddressesAndSlots(sys: System, run: seq<State>, i: nat, user: string)
    requires Behaviour(sys, run) && i < |run|
    ensures var st := run[i];
      && st.pool.active == Held(st.conns)
      && (forall c, d :: (c in st.conns && d in st.conns && HasIp(st.conns[c]) && HasIp(st.conns[d]) && c != d)
            ==> st.conns[c].phase.ip != st.conns[d].phase.ip)
      && (sys.cfg.min <= sys.cfg.max ==> forall ip :: ip in Held(st.conns) ==> InPool(sys.cfg, ip))
      && Count(st.counters, LIMIT_ALL_KEY) == |SlotHolders(st.conns)| <= Bound(sys.limits.maxClient)
      && (user != LIMIT_ALL_KEY ==>
            Count(st.counters, user) == |SlotHoldersOf(st.conns, user)| <= Bound(sys.limits.maxUserClient))
  {
    ResourcesAreExact(sys, run, i);
    SlotsAreCounted(run[i].conns, user);
  }

  /** In every reachable state the user counters add up to the global one exactly when nobody called like the global key
      holds a slot. */
  lemma CountersAddUp(sys: System, run: seq<State>, i: nat)
    requires Behaviour(sys, run) && i < |run|
    ensures var st := run[i];
      && LIMIT_ALL_KEY in st.counters
      && (Sum(st.counters, st.counters.Keys - {LIMIT_ALL_KEY}) == st.counters[LIMIT_ALL_KEY]
          <==> SlotHoldersOf(st.conns, LIMIT_ALL_KEY) == {})
  {
    ResourcesAreExact(sys, run, i);
    SlotsAreCounted(run[i].conns, LIMIT_ALL_KEY);
    UserCountersAddUp(run[i].counters, Slots(run[i].conns));
  }

  // ---------------------------------------------------------------- sessions and their connections

  predicate Closing(x: Conn) { x.phase.Marked? || x.phase.Freeing? }

  /** IsActive, CSess and the live connections say the same thing. */
  ghost predicate Corresponds(conns: map<ConnId, Conn>, sess: map<SessId, Sess>) {
    && (forall s :: s in sess ==> (sess[s].isActive <==> sess[s].cSess.Some?))
    && (forall s :: s in sess && sess[s].cSess.Some? ==>
          var c := sess[s].cSess.value;
          c in conns && conns[c].sess == s && conns[c].phase.Live?)
    && (forall c :: c in conns && conns[c].phase.Live? ==>
          conns[c].sess in sess && sess[conns[c].sess].cSess == Some(c))
  }

  /** What makes it inductive: one NewConn at a time per session, which once past the former connection finds none. */
  ghost predicate OneAtATime(conns: map<ConnId, Conn>, sess: map<SessId, Sess>) {
    && (forall c :: c in conns ==> conns[c].sess in sess)
    && (forall c, d :: (c in conns && d in conns && Pending(conns[c]) && Pending(conns[d])
                        && conns[c].sess == conns[d].sess) ==> c == d)
    && (forall c :: c in conns && PastOld(conns[c]) ==> sess[conns[c].sess].cSess.None?)
    && (forall c :: c in conns && conns[c].phase.Awaiting? ==>
          var d := sess[conns[c].sess].cSess;
          d.None? || d == Some(conns[c].phase.former))
  }

  /** dtlsIds is the inverse of sessions. */
  ghost predicate Inverse(st: State) {
    && (forall token :: token in st.sessions ==>
          && st.sessions[token] in st.sess
          && var x := st.sess[st.sessions[token]];
             x.token == token && x.dtlsSid in st.dtlsIds && st.dtlsIds[x.dtlsSid] == token)
    && (forall did :: did in st.dtlsIds ==>
          && st.dtlsIds[did] in st.sessions && st.sessions[st.dtlsIds[did]] in st.sess
          && st.sess[st.sessions[st.dtlsIds[did]]].dtlsSid == did)
  }

  lemma NewSessionIsInverse(sys: System, st: State, step: Step)
    requires Inverse(st) && step.NewSession? && Enabled(sys, st, step)
    ensures Inverse(Do(sys, st, step))
  {}

  lemma LookUpIsInverse(sys: System, st: State, step: Step)
    requires Inverse(st) && step.LookUp? && Enabled(sys, st, step)
    ensures Inverse(Do(sys, st, step))
  {}

  /** The other steps leave the tables and the sessions' names alone. */
  lemma NamesStay(sys: System, st: State, step: Step)
    requires Enabled(sys, st, step) && !step.NewSession? && !step.LookUp?
    ensures var st' := Do(sys, st, step);
      && st'.sessions == st.sessions && st'.dtlsIds == st.dtlsIds && st.sess.Keys <= st'.sess.Keys
      && forall s :: s in st.sess ==> st'.sess[s].token == st.sess[s].token && st'.sess[s].dtlsSid == st.sess[s].dtlsSid
  {
    if step.Start? {
      StartStays(sys, st, step);
    } else if Early(step) {
      EarlyStays(sys, st, step);
    } else if Late(step) {
      LateStays(sys, st, step);
    } else if Moving(step) {
      MovingStays(sys, st, step);
      SessionMoves(sys, st, step);
    }
  }

  lemma InverseStep(sys: System, st: State, step: Step)
    requires Inverse(st) && Enabled(sys, st, step)
    ensures Inverse(Do(sys, st, step))
  {
    if step.NewSession? {
      NewSessionIsInverse(sys, st, step);
    } else if step.LookUp? {
      LookUpIsInverse(sys, st, step);
    } else {
      NamesStay(sys, st, step);
    }
  }

  ghost predicate SerialInv(conns: map<ConnId, Conn>, sess: map<SessId, Sess>) {
    Corresponds(conns, sess) && OneAtATime(conns, sess)
  }

  /** A step that leaves the sessions alone and only moves NewConn or Close along. */
  lemma InnerKeeps(conns: map<ConnId, Conn>, sess: map<SessId, Sess>, c: ConnId, x: Conn)
    requires SerialInv(conns, sess) && c in conns && x.sess == conns[c].sess
    requires !conns[c].phase.Live? && !x.phase.Live?
    requires Pending(x) ==> Pending(conns[c])
    requires PastOld(x) ==> PastOld(conns[c]) || sess[x.sess].cSess.None?
    requires x.phase.Awaiting? ==> sess[x.sess].cSess == Some(x.phase.former)
    ensures SerialInv(conns[c := x], sess)
  {}

  lemma InnerStep(sys: System, st: State, step: Step)
    requires Enabled(sys, st, step)
    requires step.TakeSlot? || step.AcquireAddress? || step.GiveSlotBack? || step.LookupGroup? || step.ReleaseAddress?
    ensures var x := Worker(sys, st, step);
      && Do(sys, st, step).sess == st.sess && x.sess == st.conns[step.c].sess
      && !st.conns[step.c].phase.Live? && !x.phase.Live? && !x.phase.Awaiting?
      && (PastOld(x) ==> PastOld(st.conns[step.c])) && (Pending(x) ==> Pending(st.conns[step.c]))
  {}

  lemma StartKeeps(conns: map<ConnId, Conn>, sess: map<SessId, Sess>, c: ConnId, x: Conn)
    requires SerialInv(conns, sess) && c !in conns && x.sess in sess
    requires forall d :: d in conns && conns[d].sess == x.sess ==> !Pending(conns[d])
    requires x.phase.Replacing? || (x.phase.Ready? && !sess[x.sess].isActive)
    ensures SerialInv(conns[c := x], sess)
  {}

  lemma InstallKeeps(conns: map<ConnId, Conn>, sess: map<SessId, Sess>, c: ConnId)
    requires SerialInv(conns, sess) && c in conns && conns[c].phase.Grouped? && conns[c].sess in sess
    ensures var s := conns[c].sess;
            SerialInv(conns[c := conns[c].(phase := Live(conns[c].phase.ip))],
                      sess[s := sess[s].(isActive := true, cSess := Some(c))])
  {}

  lemma MarkKeeps(conns: map<ConnId, Conn>, sess: map<SessId, Sess>, c: ConnId)
    requires SerialInv(conns, sess) && c in conns && conns[c].phase.Live? && conns[c].sess in sess
    ensures var s := conns[c].sess;
            SerialInv(conns[c := conns[c].(phase := Marked(conns[c].phase.ip))],
                      sess[s := sess[s].(isActive := false, cSess := None, mux := Some(c))])
  {}

  lemma FreeKeeps(conns: map<ConnId, Conn>, sess: map<SessId, Sess>, c: ConnId)
    requires SerialInv(conns, sess) && c in conns && conns[c].phase.Freeing? && conns[c].sess in sess
    ensures var s := conns[c].sess;
            SerialInv(conns[c := conns[c].(phase := Closed)], sess[s := sess[s].(mux := None)])
  {}

  lemma NewSessionKeeps(conns: map<ConnId, Conn>, sess: map<SessId, Sess>, s: SessId, x: Sess)
    requires SerialInv(conns, sess) && s !in sess && !x.isActive && x.cSess.None?
    ensures SerialInv(conns, sess[s := x])
  {}

  lemma SerialEarly(sys: System, st: State, step: Step)
    requires sys.serial && SerialInv(st.conns, st.sess) && Enabled(sys, st, step) && Early(step) && !step.TakeSlot?
    ensures SerialInv(Do(sys, st, step).conns, Do(sys, st, step).sess)
  {
    var x := Worker(sys, st, step);
    if step.Start? {
      StartKeeps(st.conns, st.sess, step.c, x);
    } else {
      InnerKeeps(st.conns, st.sess, step.c, x);
    }
  }

  lemma SerialMoving(sys: System, st: State, step: Step)
    requires sys.serial && SerialInv(st.conns, st.sess) && Enabled(sys, st, step) && Moving(step)
    ensures SerialInv(Do(sys, st, step).conns, Do(sys, st, step).sess)
  {
    if step.Install? {
      InstallKeeps(st.conns, st.sess, step.c);
    } else if step.Mark? {
      MarkKeeps(st.conns, st.sess, step.c);
    } else {
      FreeKeeps(st.conns, st.sess, step.c);
    }
  }

  lemma SerialStep(sys: System, st: State, step: Step)
    requires sys.serial && SerialInv(st.conns, st.sess) && Enabled(sys, st, step)
    ensures SerialInv(Do(sys, st, step).conns, Do(sys, st, step).sess)
  {
    if Moving(step) {
      SerialMoving(sys, st, step);
    } else if Early(step) && !step.TakeSlot? {
      SerialEarly(sys, st, step);
    } else if step.TakeSlot? || Late(step) {
      InnerStep(sys, st, step);
      InnerKeeps(st.conns, st.sess, step.c, Worker(sys, st, step));
    } else if step.NewSession? {
      NewSessionKeeps(st.conns, st.sess, step.s, Sess(step.token, step.dtlsSid, false, None, None));
    }
  }

  /** With NewConn calls on one session not overlapping: a session is active exactly when it has a connection, that
      connection is live and its only live one; and dtlsIds is the inverse of sessions, whatever overlaps. */
  lemma {:induction false} SessionsCorrespond(sys: System, run: seq<State>, i: nat)
    requires Behaviour(sys, run) && i < |run|
    ensures Inverse(run[i])
    ensures sys.serial ==> SerialInv(run[i].conns, run[i].sess)
    ensures sys.serial ==> forall c, d :: (c in run[i].conns && d in run[i].conns && run[i].conns[c].phase.Live?
              && run[i].conns[d].phase.Live? && run[i].conns[c].sess == run[i].conns[d].sess) ==> c == d
  {
    if i > 0 {
      SessionsCorrespond(sys, run, i - 1);
      assert Next(sys, run[i - 1], run[i - 1 + 1]);
      var step :| Takes(sys, run[i - 1], step, run[i]);
      InverseStep(sys, run[i - 1], step);
      if sys.serial {
        SerialStep(sys, run[i - 1], step);
      }
    }
  }

  /** Close as callers see it: closeOnce lets the first call through and makes every other one do nothing. */
  function CloseBegun(st: State, c: ConnId): State
    requires c in st.conns && st.conns[c].sess in st.sess
  {
    if st.conns[c].phase.Live? then
      var s := st.conns[c].sess;
      SetSess(Move(st, c, Marked(st.conns[c].phase.ip)), s,
              st.sess[s].(isActive := false, cSess := None, mux := Some(c)))
    else st
  }

  /** Closing a connection, for the first time or again, never disturbs another live one. */
  lemma CloseSparesOthers(sys: System, run: seq<State>, i: nat, c: ConnId, d: ConnId)
    requires Behaviour(sys, run) && i < |run| && sys.serial
    requires c in run[i].conns && d in run[i].conns && c != d && run[i].conns[d].phase.Live?
    ensures run[i].conns[c].sess in run[i].sess && run[i].conns[d].sess in run[i].sess
    ensures var st := CloseBegun(run[i], c);
            st.conns[d] == run[i].conns[d] && st.sess[st.conns[d].sess] == run[i].sess[run[i].conns[d].sess]
  {
    SessionsCorrespond(sys, run, i);
  }

  /** A connection being closed has its session's mutex, and a session so locked has no connection. */
  ghost predicate ClosingInv(conns: map<ConnId, Conn>, sess: map<SessId, Sess>) {
    && (forall c :: c in conns && Closing(conns[c]) ==> conns[c].sess in sess && sess[conns[c].sess].mux == Some(c))
    && (forall s :: s in sess && sess[s].mux.Some? ==> sess[s].cSess.None?)
  }

  lemma ClosingInner(conns: map<ConnId, Conn>, sess: map<SessId, Sess>, c: ConnId, x: Conn)
    requires ClosingInv(conns, sess) && (Closing(x) ==> c in conns && Closing(conns[c]) && x.sess == conns[c].sess)
    ensures ClosingInv(conns[c := x], sess)
  {}

  lemma ClosingInstall(conns: map<ConnId, Conn>, sess: map<SessId, Sess>, c: ConnId, x: Conn, y: Sess)
    requires ClosingInv(conns, sess) && x.sess in sess && sess[x.sess].mux.None? && !Closing(x) && y.mux.None?
    ensures ClosingInv(conns[c := x], sess[x.sess := y])
  {}

  lemma ClosingMark(conns: map<ConnId, Conn>, sess: map<SessId, Sess>, c: ConnId, x: Conn, y: Sess)
    requires ClosingInv(conns, sess) && x.sess in sess && sess[x.sess].mux.None? && y.mux == Some(c) && y.cSess.None?
    ensures ClosingInv(conns[c := x], sess[x.sess := y])
  {}

  lemma ClosingFree(conns: map<ConnId, Conn>, sess: map<SessId, Sess>, c: ConnId, x: Conn, y: Sess)
    requires ClosingInv(conns, sess) && c in conns && Closing(conns[c]) && x.sess == conns[c].sess && !Closing(x)
    requires y.mux.None?
    ensures ClosingInv(conns[c := x], sess[x.sess := y])
  {}

  lemma ClosingMoving(sys: System, st: State, step: Step)
    requires ClosingInv(st.conns, st.sess) && Enabled(sys, st, step) && Moving(step)
    ensures ClosingInv(Do(sys, st, step).conns, Do(sys, st, step).sess)
  {
    MovingStays(sys, st, step);
    SessionMoves(sys, st, step);
    var x, y := Worker(sys, st, step), Do(sys, st, step).sess[st.conns[step.c].sess];
    if step.Install? {
      ClosingInstall(st.conns, st.sess, step.c, x, y);
    } else if step.Mark? {
      ClosingMark(st.conns, st.sess, step.c, x, y);
    } else {
      ClosingFree(st.conns, st.sess, step.c, x, y);
    }
  }

  lemma ClosingStep(sys: System, st: State, step: Step)
    requires ClosingInv(st.conns, st.sess) && Enabled(sys, st, step)
    ensures ClosingInv(Do(sys, st, step).conns, Do(sys, st, step).sess)
  {
    if Moving(step) {
      ClosingMoving(sys, st, step);
    } else if step.Start? {
      StartStays(sys, st, step);
      ClosingInner(st.conns, st.sess, step.c, Worker(sys, st, step));
    } else if Early(step) {
      EarlyStays(sys, st, step);
      ClosingInner(st.conns, st.sess, step.c, Worker(sys, st, step));
    } else if Late(step) {
      LateStays(sys, st, step);
      ClosingInner(st.conns, st.sess, step.c, Worker(sys, st, step));
    }
  }

  lemma {:induction false} ClosingHoldsMux(sys: System, run: seq<State>, i: nat)
    requires Behaviour(sys, run) && i < |run|
    ensures ClosingInv(run[i].conns, run[i].sess)
  {
    if i > 0 {
      ClosingHoldsMux(sys, run, i - 1);
      assert Next(sys, run[i - 1], run[i - 1 + 1]);
      var step :| Takes(sys, run[i - 1], step, run[i]);
      ClosingStep(sys, run[i - 1], step);
    }
  }

  /** Two connections of which one is being closed or about to, and the other is live. */
  ghost predicate Apart(conns: map<ConnId, Conn>, sess: map<SessId, Sess>, c: ConnId, d: ConnId) {
    && c in conns && d in conns && c != d && conns[d].phase.Live?
    && conns[c].sess in sess && conns[d].sess in sess && conns[c].sess != conns[d].sess
  }

  lemma ClosingIsApart(conns: map<ConnId, Conn>, sess: map<SessId, Sess>, c: ConnId, d: ConnId)
    requires SerialInv(conns, sess) && ClosingInv(conns, sess)
    requires c in conns && d in conns && c != d && conns[d].phase.Live? && (conns[c].phase.Live? || Closing(conns[c]))
    ensures Apart(conns, sess, c, d)
  {
    assert sess[conns[d].sess].cSess == Some(d);
  }

  lemma OtherAddressStays(conns: map<ConnId, Conn>, active: set<Addr>, c: ConnId, d: ConnId)
    requires c in conns && d in conns && c != d && HasIp(conns[c]) && HasIp(conns[d]) && active == Held(conns)
    requires forall x, y :: (x in conns && y in conns && HasIp(conns[x]) && HasIp(conns[y])
                             && conns[x].phase.ip == conns[y].phase.ip) ==> x == y
    ensures conns[d].phase.ip in active - {conns[c].phase.ip}
  {
    assert conns[d].phase.ip in Held(conns);
  }

  lemma CloseStepOnApart(sys: System, st: State, step: Step, d: ConnId)
    requires (step.Mark? || step.ReleaseAddress? || step.FreeSlot?) && Enabled(sys, st, step)
    requires Apart(st.conns, st.sess, step.c, d)
    ensures var st' := Do(sys, st, step);
      && st'.conns[d] == st.conns[d] && st'.sess[st.conns[d].sess] == st.sess[st.conns[d].sess]
      && st'.pool == if step.ReleaseAddress? then Release(st.pool, st.conns[step.c].phase.ip, step.now) else st.pool
  {}

  /** Nor does any later step of that Close: another live connection keeps its phase, its address stays active, and its
      session stays as it was. */
  lemma CloseStepsSpareOthers(sys: System, run: seq<State>, i: nat, step: Step, d: ConnId)
    requires Behaviour(sys, run) && i < |run| && sys.serial
    requires (step.Mark? || step.ReleaseAddress? || step.FreeSlot?) && Enabled(sys, run[i], step)
    requires d in run[i].conns && d != step.c && run[i].conns[d].phase.Live?
    ensures var st, st' := run[i], Do(sys, run[i], step);
      && st'.conns[d] == st.conns[d] && st.conns[d].phase.ip in st'.pool.active
      && st.conns[d].sess in st.sess && st'.sess[st.conns[d].sess] == st.sess[st.conns[d].sess]
  {
    var st := run[i];
    SessionsCorrespond(sys, run, i);
    ClosingHoldsMux(sys, run, i);
    ClosingIsApart(st.conns, st.sess, step.c, d);
    CloseStepOnApart(sys, st, step, d);
    ResourcesAreExact(sys, run, i);
    if step.ReleaseAddress? {
      OtherAddressStays(st.conns, st.pool.active, step.c, d);
      ReleaseIsSafe(sys.cfg, st.pool, st.conns[step.c].phase.ip, step.now);
    } else {
      assert st.conns[d].phase.ip in Held(st.conns);
    }
  }

  /** Without that serialisation it does: two NewConn calls that both reach installation leave the session inactive
      and without a connection once the first of them is closed, although the second is live. */
  lemma OverlapLosesTheSuccessor(sys: System, st: State, c: ConnId, d: ConnId)
    requires c in st.conns && d in st.conns && c != d && st.conns[c].phase.Grouped? && st.conns[d].phase.Grouped?
    requires st.conns[c].sess == st.conns[d].sess && st.conns[c].sess in st.sess && st.sess[st.conns[c].sess].mux.None?
    ensures Enabled(sys, st, Install(c))
    ensures var st1 := Do(sys, st, Install(c)); Enabled(sys, st1, Install(d))
    ensures var st2 := Do(sys, Do(sys, st, Install(c)), Install(d)); Enabled(sys, st2, Mark(c))
    ensures var st3 := Do(sys, Do(sys, Do(sys, st, Install(c)), Install(d)), Mark(c));
            st3.conns[d].phase.Live? && !st3.sess[st3.conns[d].sess].isActive && st3.sess[st3.conns[d].sess].cSess.None?
            && !Corresponds(st3.conns, st3.sess)
  {
    var st3 := Do(sys, Do(sys, Do(sys, st, Install(c)), Install(d)), Mark(c));
    assert d in st3.conns && st3.conns[d].phase.Live?;
  }

  // ---------------------------------------------------------------- the condition is needed

  ghost predicate Reaches(sys: System, run: seq<State>, st: State) {
    Behaviour(sys, run) && run[|run| - 1] == st
  }

  lemma Extend(sys: System, run: seq<State>, st: State, step: Step) returns (longer: seq<State>)
    requires Reaches(sys, run, st) && Enabled(sys, st, step)
    ensures Reaches(sys, longer, Do(sys, st, step)) && run <= longer && |longer| == |run| + 1
  {
    longer := run + [Do(sys, st, step)];
    assert Takes(sys, st, step, Do(sys, st, step));
    forall i | 0 <= i < |longer| - 1 ensures Next(sys, longer[i], longer[i + 1]) {
      if i < |run| - 1 {
        assert Next(sys, run[i], run[i + 1]);
      }
    }
  }

  /** Room for two connections of one user. */
  predicate Roomy(sys: System) {
    ValidConfig(sys.cfg) && sys.cfg.min < sys.cfg.max && sys.limits.maxClient >= 2 && sys.limits.maxUserClient >= 2
  }

  const GUEST := Client("guest", "02:00:00:00:00:01", false)

  /** Two NewConn calls on a new session have both seen it inactive. */
  lemma TwoStarted(sys: System) returns (run: seq<State>, st: State)
    requires Roomy(sys) && !sys.serial
    ensures Reaches(sys, run, st)
    ensures st.pool == Pool(map[], 1, {}, sys.cfg.min) && st.counters == map[LIMIT_ALL_KEY := 0]
    ensures st.conns == map[0 := Conn(0, GUEST, Ready), 1 := Conn(0, GUEST, Ready)]
    ensures st.sess == map[0 := Sess("token", "dtls", false, None, None)]
  {
    st := State(Pool(map[], 1, {}, sys.cfg.min), map[LIMIT_ALL_KEY := 0], map[], map[], map[], map[], map[]);
    run := [st];
    run := Extend(sys, run, st, NewSession(0, "token", "dtls"));
    st := Do(sys, st, NewSession(0, "token", "dtls"));
    run := Extend(sys, run, st, Start(0, 0, GUEST));
    st := Do(sys, st, Start(0, 0, GUEST));
    run := Extend(sys, run, st, Start(1, 0, GUEST));
    st := Do(sys, st, Start(1, 0, GUEST));
  }

  /** Both take a slot. */
  lemma TwoSlotted(sys: System) returns (run: seq<State>, st: State)
    requires Roomy(sys) && !sys.serial
    ensures Reaches(sys, run, st)
    ensures st.pool == Pool(map[], 1, {}, sys.cfg.min)
    ensures st.conns == map[0 := Conn(0, GUEST, Slotted), 1 := Conn(0, GUEST, Slotted)]
    ensures st.sess == map[0 := Sess("token", "dtls", false, None, None)]
  {
    run, st := TwoStarted(sys);
    run := Extend(sys, run, st, TakeSlot(0));
    st := Do(sys, st, TakeSlot(0));
    assert st.counters[LIMIT_ALL_KEY] == st.counters["guest"] == 1;
    run := Extend(sys, run, st, TakeSlot(1));
    st := Do(sys, st, TakeSlot(1));
  }

  /** The first address of an empty pool, and another one when no row but the first is there. */
  lemma FirstAddress(c: Config, p: Pool)
    requires ValidConfig(c) && c.min < c.max && p == Pool(map[], 1, {}, c.min)
    ensures Valid(c, p) && ValidFind(p.rows, GUEST.username, [])
    ensures var o := Acquire(c, p, GUEST, 0, []);
            o.ip.Some? && forall id :: id in o.pool.rows ==> id == 1 && o.pool.rows[id] == NewRow(o.ip.value, GUEST, 0)
  {
    LoopMeaning(c, p, GUEST, 0);
    LoopCases(c, p, GUEST, 0);
    assert !Unavailable(c, p, c.min, 0) && InScan(c, c.min);
  }

  lemma NextAddress(c: Config, p: Pool, ip: Addr, found: seq<nat>)
    requires Valid(c, p) && c.min < c.max && p.active == {ip} && ValidFind(p.rows, GUEST.username, found)
    requires forall id :: id in p.rows ==> id == 1 && p.rows[id] == NewRow(ip, GUEST, 0)
    ensures Acquire(c, p, GUEST, 0, found).ip.Some?
  {
    LoopMeaning(c, p, GUEST, 0);
    var other := if ip == c.min then c.min + 1 else c.min;
    assert !Unavailable(c, p, other, 0) && InScan(c, other);
  }

  /** Both get an address and find their group. */
  lemma TwoGrouped(sys: System) returns (run: seq<State>, st: State)
    requires Roomy(sys) && !sys.serial
    ensures Reaches(sys, run, st)
    ensures st.conns.Keys == {0, 1} && st.conns[0].phase.Grouped? && st.conns[1].phase.Grouped?
    ensures st.conns[0].sess == st.conns[1].sess == 0 && 0 in st.sess && st.sess[0].mux.None?
  {
    run, st := TwoSlotted(sys);
    FirstAddress(sys.cfg, st.pool);
    AcquireIsSafe(sys.cfg, st.pool, GUEST, 0, []);
    run := Extend(sys, run, st, AcquireAddress(0, 0, []));
    st := Do(sys, st, AcquireAddress(0, 0, []));
    var found := if 1 in st.pool.rows then [1] else [];
    assert ValidFind(st.pool.rows, GUEST.username, found);
    NextAddress(sys.cfg, st.pool, st.conns[0].phase.ip, found);
    run := Extend(sys, run, st, AcquireAddress(1, 0, found));
    st := Do(sys, st, AcquireAddress(1, 0, found));
    run := Extend(sys, run, st, LookupGroup(0, true));
    st := Do(sys, st, LookupGroup(0, true));
    run := Extend(sys, run, st, LookupGroup(1, true));
    st := Do(sys, st, LookupGroup(1, true));
  }

  ghost predicate AlwaysCorresponds(sys: System) {
    forall run: seq<State>, i :: Behaviour(sys, run) && 0 <= i < |run| ==> Corresponds(run[i].conns, run[i].sess)
  }

  /** In a system with room for two connections, sessions and connections always correspond exactly when NewConn calls
      on one session do not overlap. */
  lemma CorrespondExactlyWhenSerial(sys: System)
    requires Roomy(sys)
    ensures AlwaysCorresponds(sys) <==> sys.serial
  {
    if sys.serial {
      forall run: seq<State>, i | Behaviour(sys, run) && 0 <= i < |run| ensures Corresponds(run[i].conns, run[i].sess) {
        SessionsCorrespond(sys, run, i);
      }
    } else {
      var run, st := TwoGrouped(sys);
      OverlapLosesTheSuccessor(sys, st, 0, 1);
      run := Extend(sys, run, st, Install(0));
      st := Do(sys, st, Install(0));
      run := Extend(sys, run, st, Install(1));
      st := Do(sys, st, Install(1));
      run := Extend(sys, run, st, Mark(0));
      st := Do(sys, st, Mark(0));
      assert !Corresponds(run[|run| - 1].conns, run[|run| - 1].sess);
    }
  }

  /** The tables change by NewSession, which enters a session under a new token and a new id, and by CloseSess, which
      drops the session of its token from both; CloseCSess and the connections leave them alone. */
  lemma TablesChangeExactlyWhen(sys: System, st: State, step: Step, token: string)
    requires Inverse(st) && Enabled(sys, st, step)
    ensures var st' := Do(sys, st, step);
      && (token in st'.sessions && token !in st.sessions <==> step.NewSession? && step.token == token)
      && (token in st.sessions && token !in st'.sessions <==> step.LookUp? && step.drop && step.token == token)
      && (token in st.sessions && token in st'.sessions ==> st'.sessions[token] == st.sessions[token])
  {
    if !step.NewSession? && !step.LookUp? {
      NamesStay(sys, st, step);
    }
  }
}
