/** The allocator inside the interleavings of NewConn and Close: its table there goes through a run of the allocator
    alone, and a reserved address is held only by a connection of its MAC. */
module Reservations {
  import opened Wrappers
  import opened IpPool
  import opened LimitClient
  import opened Lifecycle
  import R = IpPoolRuns

  lemma {:induction false} RunSnoc(c: Config, p: Pool, ops: seq<R.Op>, op: R.Op)
    requires R.Run(c, p, ops) && R.Enabled(c, R.End(c, p, ops), op)
    ensures R.Run(c, p, ops + [op]) && R.End(c, p, ops + [op]) == R.After(c, R.End(c, p, ops), op)
    decreases |ops|
  {
    if ops == [] {
      assert [op][1..] == [] && ops + [op] == [op];
      assert R.Run(c, R.After(c, p, op), []);
    } else {
      RunSnoc(c, R.After(c, p, ops[0]), ops[1..], op);
      assert (ops + [op])[1..] == ops[1..] + [op];
    }
  }

  /** What a step asks of the allocator, if anything. */
  ghost function OpOf(st: State, step: Step): Option<R.Op>
    requires (step.AcquireAddress? || step.ReleaseAddress?) ==> step.c in st.conns
    requires step.ReleaseAddress? ==> HasIp(st.conns[step.c])
  {
    match step
    case AcquireAddress(c, now, found) => Some(R.AcquireOp(st.conns[c].client, now, found))
    case ReleaseAddress(c, now) => Some(R.ReleaseOp(st.conns[c].phase.ip, now))
    case _ => None
  }

  lemma StepOfPool(sys: System, st: State, step: Step)
    requires Enabled(sys, st, step) && Valid(sys.cfg, st.pool)
    ensures match OpOf(st, step)
            case None => Do(sys, st, step).pool == st.pool
            case Some(op) => R.Enabled(sys.cfg, st.pool, op) && Do(sys, st, step).pool == R.After(sys.cfg, st.pool, op)
  {}

  ghost predicate Through(c: Config, p: Pool, ops: seq<R.Op>, q: Pool) {
    R.Run(c, p, ops) && R.End(c, p, ops) == q
  }

  /** In every interleaving the table goes through a run of acquires and releases, one after the other. */
  lemma {:induction false} PoolRuns(sys: System, run: seq<State>, i: nat)
    requires Behaviour(sys, run) && i < |run|
    ensures exists ops :: Through(sys.cfg, run[0].pool, ops, run[i].pool)
  {
    if i == 0 {
      assert Through(sys.cfg, run[0].pool, [], run[0].pool);
    } else {
      PoolRuns(sys, run, i - 1);
      var ops :| Through(sys.cfg, run[0].pool, ops, run[i - 1].pool);
      assert Next(sys, run[i - 1], run[i - 1 + 1]);
      var step :| Takes(sys, run[i - 1], step, run[i]);
      StepOfPool(sys, run[i - 1], step);
      match OpOf(run[i - 1], step)
      case None =>
      case Some(op) =>
        RunSnoc(sys.cfg, run[0].pool, ops, op);
        assert Through(sys.cfg, run[0].pool, ops + [op], run[i].pool);
    }
  }

  /** Reserved rows stay as they are reserved, and nothing else ever becomes reserved, in any interleaving. */
  lemma ReservationsStay(sys: System, run: seq<State>, i: nat, id: nat)
    requires Behaviour(sys, run) && i < |run|
    ensures var rows, later := run[0].pool.rows, run[i].pool.rows;
      && (id in rows && rows[id].keep <==> id in later && later[id].keep)
      && (id in rows && rows[id].keep ==>
            later[id].ipAddr == rows[id].ipAddr && later[id].macAddr == rows[id].macAddr)
  {
    PoolRuns(sys, run, i);
    var ops :| Through(sys.cfg, run[0].pool, ops, run[i].pool);
    if id in run[0].pool.rows && run[0].pool.rows[id].keep {
      R.ReservationIsSafe(sys.cfg, run[0].pool, ops, id);
    }
    if id in run[i].pool.rows && run[i].pool.rows[id].keep {
      R.ReservationsAreOld(sys.cfg, run[0].pool, ops, id);
    }
  }

  /** Only connections that presented this MAC as a real one hold the address. */
  ghost predicate HeldBy(st: State, ip: Addr, mac: string) {
    forall c :: c in st.conns && HasIp(st.conns[c]) && st.conns[c].phase.ip == ip ==>
      st.conns[c].client.uniqueMac && st.conns[c].client.macAddr == mac
  }

  lemma HoldersStay(st: State, st': State, c: ConnId, ip: Addr, mac: string)
    requires HeldBy(st, ip, mac) && OnlyConn(st, st', c)
    requires HasIp(st'.conns[c]) && st'.conns[c].phase.ip == ip ==>
               st'.conns[c].client.uniqueMac && st'.conns[c].client.macAddr == mac
    ensures HeldBy(st', ip, mac)
  {}

  lemma HolderStep(sys: System, st: State, step: Step, id: nat)
    requires Enabled(sys, st, step) && id in st.pool.rows && st.pool.rows[id].keep && Valid(sys.cfg, st.pool)
    requires HeldBy(st, st.pool.rows[id].ipAddr, st.pool.rows[id].macAddr)
    ensures HeldBy(Do(sys, st, step), st.pool.rows[id].ipAddr, st.pool.rows[id].macAddr)
  {
    var row := st.pool.rows[id];
    if step.AcquireAddress? {
      AcquiredHolder(sys, st, step, id);
      LateStays(sys, st, step);
      HoldersStay(st, Do(sys, st, step), step.c, row.ipAddr, row.macAddr);
    } else if step.ReleaseAddress? {
      LateStays(sys, st, step);
      HoldersStay(st, Do(sys, st, step), step.c, row.ipAddr, row.macAddr);
    } else if !TableStep(step) {
      AddressStays(sys, st, step);
      HoldersStay(st, Do(sys, st, step), step.c, row.ipAddr, row.macAddr);
    }
  }

  lemma AcquiredHolder(sys: System, st: State, step: Step, id: nat)
    requires Enabled(sys, st, step) && step.AcquireAddress? && id in st.pool.rows && st.pool.rows[id].keep
    ensures var x := Do(sys, st, step).conns[step.c];
            HasIp(x) && x.phase.ip == st.pool.rows[id].ipAddr ==>
              x.client.uniqueMac && x.client.macAddr == st.pool.rows[id].macAddr
  {
    R.ReservedStep(sys.cfg, st.pool, R.AcquireOp(st.conns[step.c].client, step.now, step.found), id);
  }

  lemma HolderNext(sys: System, st: State, st': State, id: nat, ip: Addr, mac: string)
    requires Next(sys, st, st') && Valid(sys.cfg, st.pool) && id in st.pool.rows && st.pool.rows[id].keep
    requires ip == st.pool.rows[id].ipAddr && mac == st.pool.rows[id].macAddr && HeldBy(st, ip, mac)
    ensures HeldBy(st', ip, mac)
  {
    var step :| Takes(sys, st, step, st');
    HolderStep(sys, st, step, id);
  }

  lemma PoolIsValid(sys: System, run: seq<State>, i: nat)
    requires Behaviour(sys, run) && i < |run|
    ensures Valid(sys.cfg, run[i].pool)
  {
    ResourcesAreExact(sys, run, i);
  }

  /** A reserved address is held, in every reachable state of every interleaving, only by connections of its MAC. */
  lemma {:induction false} ReservedAddressIsHeldByItsMac(sys: System, run: seq<State>, i: nat, id: nat)
    requires Behaviour(sys, run) && i < |run| && id in run[0].pool.rows && run[0].pool.rows[id].keep
    ensures HeldBy(run[i], run[0].pool.rows[id].ipAddr, run[0].pool.rows[id].macAddr)
  {
    if i > 0 {
      var row := run[0].pool.rows[id];
      ReservedAddressIsHeldByItsMac(sys, run, i - 1, id);
      ReservationsStay(sys, run, i - 1, id);
      PoolIsValid(sys, run, i - 1);
      assert Next(sys, run[i - 1], run[i - 1 + 1]);
      HolderNext(sys, run[i - 1], run[i], id, row.ipAddr, row.macAddr);
    }
  }
}
