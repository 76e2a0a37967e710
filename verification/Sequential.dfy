/** One call at a time: what NewConn and Close do to allocator and counters, as Session states it, is what the steps
    of Lifecycle do when nothing comes between them. */
module Sequential {
  import opened Wrappers
  import opened IpPool
  import opened LimitClient
  import opened Lifecycle
  import S = Session

  ghost predicate Run(sys: System, st: State, steps: seq<Step>)
    decreases |steps|
  {
    steps == [] || (Enabled(sys, st, steps[0]) && Run(sys, Do(sys, st, steps[0]), steps[1..]))
  }

  ghost function End(sys: System, st: State, steps: seq<Step>): State
    requires Run(sys, st, steps)
    decreases |steps|
  {
    if steps == [] then st else End(sys, Do(sys, st, steps[0]), steps[1..])
  }

  /** The steps lead from one state to the other. */
  ghost predicate Leads(sys: System, st: State, steps: seq<Step>, st': State) {
    Run(sys, st, steps) && End(sys, st, steps) == st'
  }

  lemma {:induction false} Snoc(sys: System, st: State, steps: seq<Step>, st': State, s: Step)
    requires Leads(sys, st, steps, st') && Enabled(sys, st', s)
    ensures Leads(sys, st, steps + [s], Do(sys, st', s))
    decreases |steps|
  {
    if steps == [] {
      assert [s][1..] == [] && steps + [s] == [s];
      assert Run(sys, Do(sys, st, s), []);
    } else {
      Snoc(sys, Do(sys, st, steps[0]), steps[1..], st', s);
      assert (steps + [s])[1..] == steps[1..] + [s];
    }
  }

  function Resources(st: State): S.Shared { S.Shared(st.pool, st.counters) }

  /** Close on a live connection, alone: its address and its slot are given back. */
  lemma CloseAlone(sys: System, first: State, before: seq<Step>, st: State, c: ConnId, now: int)
    returns (steps: seq<Step>, st': State)
    requires Leads(sys, first, before, st)
    requires c in st.conns && st.conns[c].phase.Live? && st.conns[c].sess in st.sess
    requires st.sess[st.conns[c].sess].mux.None?
    ensures Leads(sys, first, steps, st')
    ensures Resources(st')
            == S.Returned(sys.limits, Resources(st), st.conns[c].phase.ip, st.conns[c].client.username, now)
    ensures st'.conns == st.conns[c := st.conns[c].(phase := Closed)]
    ensures st'.sess == st.sess[st.conns[c].sess := st.sess[st.conns[c].sess].(isActive := false, cSess := None)]
  {
    steps, st' := before, st;
    Snoc(sys, first, steps, st', Mark(c));
    steps, st' := steps + [Mark(c)], Do(sys, st', Mark(c));
    Snoc(sys, first, steps, st', ReleaseAddress(c, now));
    steps, st' := steps + [ReleaseAddress(c, now)], Do(sys, st', ReleaseAddress(c, now));
    Snoc(sys, first, steps, st', FreeSlot(c));
    steps, st' := steps + [FreeSlot(c)], Do(sys, st', FreeSlot(c));
  }

  /** What NewConn does once it has a slot. */
  ghost function Addressed(sys: System, r: S.Shared, client: Client, now: int, found: seq<nat>, known: bool)
    : (S.Shared, Option<Addr>)
    requires Valid(sys.cfg, r.pool) && ValidFind(r.pool.rows, client.username, found)
  {
    var o := Acquire(sys.cfg, r.pool, client, now, found);
    if o.ip.None? then (S.Shared(o.pool, Limited(sys.limits, r.counters, client.username, true).0), None)
    else (S.Shared(o.pool, r.counters), if known then o.ip else None)
  }

  /** What became of connection `c` on session `s`. */
  ghost predicate Came(st: State, st': State, c: ConnId, ip: Option<Addr>)
    requires c in st.conns
  {
    var s := st.conns[c].sess;
    && c in st'.conns && s in st'.sess
    && (if ip.Some? then
          && st'.conns[c] == st.conns[c].(phase := Live(ip.value))
          && st'.sess[s].isActive && st'.sess[s].cSess == Some(c)
        else
          && (st'.conns[c].phase.Refused? || st'.conns[c].phase.Abandoned?) && st'.sess == st.sess)
  }

  lemma GroupAlone(sys: System, first: State, before: seq<Step>, st: State, c: ConnId, known: bool)
    returns (steps: seq<Step>, st': State)
    requires Leads(sys, first, before, st)
    requires c in st.conns && st.conns[c].phase.Addressed? && st.conns[c].sess in st.sess
    requires st.sess[st.conns[c].sess].mux.None?
    ensures Leads(sys, first, steps, st') && Resources(st') == Resources(st)
    ensures Came(st, st', c, if known then Some(st.conns[c].phase.ip) else None)
  {
    Snoc(sys, first, before, st, LookupGroup(c, known));
    steps, st' := before + [LookupGroup(c, known)], Do(sys, st, LookupGroup(c, known));
    if known {
      Snoc(sys, first, steps, st', Install(c));
      steps, st' := steps + [Install(c)], Do(sys, st', Install(c));
    }
  }

  lemma AddressAlone(sys: System, first: State, before: seq<Step>, st: State, c: ConnId, now: int, found: seq<nat>,
                     known: bool) returns (steps: seq<Step>, st': State)
    requires Leads(sys, first, before, st)
    requires c in st.conns && st.conns[c].phase.Slotted? && st.conns[c].sess in st.sess
    requires st.sess[st.conns[c].sess].mux.None?
    requires Valid(sys.cfg, st.pool) && ValidFind(st.pool.rows, st.conns[c].client.username, found)
    ensures Leads(sys, first, steps, st')
    ensures var (r, ip) := Addressed(sys, Resources(st), st.conns[c].client, now, found, known);
            Resources(st') == r && Came(st, st', c, ip)
  {
    Snoc(sys, first, before, st, AcquireAddress(c, now, found));
    steps, st' := before + [AcquireAddress(c, now, found)], Do(sys, st, AcquireAddress(c, now, found));
    if st'.conns[c].phase.NoAddress? {
      Snoc(sys, first, steps, st', GiveSlotBack(c));
      steps, st' := steps + [GiveSlotBack(c)], Do(sys, st', GiveSlotBack(c));
    } else {
      steps, st' := GroupAlone(sys, first, steps, st', c, known);
    }
  }

  /** NewConn from the slot on, alone. */
  lemma TakeAlone(sys: System, first: State, before: seq<Step>, st: State, c: ConnId, now: int, found: seq<nat>,
                  known: bool)
    returns (steps: seq<Step>, st': State)
    requires Leads(sys, first, before, st)
    requires c in st.conns && st.conns[c].phase.Ready? && st.conns[c].sess in st.sess
    requires st.sess[st.conns[c].sess].mux.None?
    requires Valid(sys.cfg, st.pool) && ValidFind(st.pool.rows, st.conns[c].client.username, found)
    ensures Leads(sys, first, steps, st')
    ensures var (r, ip) := S.Taken(sys.cfg, sys.limits, Resources(st), st.conns[c].client, now, found, known);
            Resources(st') == r && Came(st, st', c, ip)
  {
    Snoc(sys, first, before, st, TakeSlot(c));
    steps, st' := before + [TakeSlot(c)], Do(sys, st, TakeSlot(c));
    if st'.conns[c].phase.Slotted? {
      steps, st' := AddressAlone(sys, first, steps, st', c, now, found, known);
    }
  }

  /** A session nobody is working on: with or without a live connection. */
  ghost predicate Quiet(sys: System, st: State, s: SessId) {
    && s in st.sess && st.sess[s].mux.None? && (st.sess[s].isActive <==> st.sess[s].cSess.Some?)
    && (st.sess[s].cSess.Some? ==>
          var c := st.sess[s].cSess.value; c in st.conns && st.conns[c].phase.Live? && st.conns[c].sess == s)
    && (forall d :: d in st.conns && st.conns[d].sess == s ==> !Pending(st.conns[d]))
  }

  /** The resources once NewConn has closed the session's former connection. */
  ghost function Before(sys: System, st: State, s: SessId, now: int): S.Shared
    requires Quiet(sys, st, s)
  {
    if st.sess[s].cSess.None? then Resources(st)
    else
      var former := st.conns[st.sess[s].cSess.value];
      S.Returned(sys.limits, Resources(st), former.phase.ip, former.client.username, now)
  }

  /** NewConn with nobody else at work is a run of Lifecycle, and the run ends with the resources, the connection and
      the session that the contract of Session.Server.NewConn states. */
  lemma NewConnAlone(sys: System, st: State, c: ConnId, s: SessId, client: Client, now: int, found: seq<nat>,
                     known: bool)
    returns (steps: seq<Step>, st': State)
    requires Quiet(sys, st, s) && c !in st.conns && Valid(sys.cfg, st.pool)
    requires ValidFind(st.pool.rows, client.username, found)
    ensures Leads(sys, st, steps, st')
    ensures Valid(sys.cfg, Before(sys, st, s, now).pool)
         && ValidFind(Before(sys, st, s, now).pool.rows, client.username, found)
    ensures var (r, ip) := S.Taken(sys.cfg, sys.limits, Before(sys, st, s, now), client, now, found, known);
      && Resources(st') == r && c in st'.conns && s in st'.sess
      && (if ip.Some? then
            st'.conns[c] == Conn(s, client, Live(ip.value)) && st'.sess[s].isActive && st'.sess[s].cSess == Some(c)
          else (st'.conns[c].phase.Refused? || st'.conns[c].phase.Abandoned?) && !st'.sess[s].isActive)
  {
    assert Leads(sys, st, [], st);
    Snoc(sys, st, [], st, Start(c, s, client));
    steps, st' := [] + [Start(c, s, client)], Do(sys, st, Start(c, s, client));
    if st.sess[s].cSess.Some? {
      var former := st.sess[s].cSess.value;
      ReleaseIsSafe(sys.cfg, st.pool, st.conns[former].phase.ip, now);
      S.ReleaseKeepsFind(sys.cfg, st.pool, st.conns[former].phase.ip, now, client.username, found);
      Snoc(sys, st, steps, st', PickOld(c));
      steps, st' := steps + [PickOld(c)], Do(sys, st', PickOld(c));
      steps, st' := CloseAlone(sys, st, steps, st', former, now);
      Snoc(sys, st, steps, st', Awaited(c));
      steps, st' := steps + [Awaited(c)], Do(sys, st', Awaited(c));
    }
    steps, st' := TakeAlone(sys, st, steps, st', c, now, found, known);
  }
}
