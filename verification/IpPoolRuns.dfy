/** Whole runs of the address allocator: what any sequence of acquires and releases keeps. */
module IpPoolRuns {
  import opened Wrappers
  import opened IpPool
  import opened IpPoolCalls

  /** One call, with the current time and, for an acquire, the answer of its user query. */
  datatype Op =
    | AcquireOp(client: Client, now: int, found: seq<nat>)
    | ReleaseOp(ip: Addr, now: int)

  ghost predicate Enabled(c: Config, p: Pool, op: Op) {
    Valid(c, p) && (op.AcquireOp? ==> ValidFind(p.rows, op.client.username, op.found))
  }

  ghost function After(c: Config, p: Pool, op: Op): (q: Pool)
    requires Enabled(c, p, op)
    ensures Valid(c, q)
  {
    match op
    case AcquireOp(client, now, found) =>
      AcquireIsSafe(c, p, client, now, found);
      Acquire(c, p, client, now, found).pool
    case ReleaseOp(ip, now) =>
      ReleaseIsSafe(c, p, ip, now);
      Release(p, ip, now)
  }

  ghost predicate Run(c: Config, p: Pool, ops: seq<Op>)
    decreases |ops|
  {
    Valid(c, p) && (ops != [] ==> Enabled(c, p, ops[0]) && Run(c, After(c, p, ops[0]), ops[1..]))
  }

  ghost function End(c: Config, p: Pool, ops: seq<Op>): (q: Pool)
    requires Run(c, p, ops)
    ensures Valid(c, q)
    decreases |ops|
  {
    if ops == [] then p else End(c, After(c, p, ops[0]), ops[1..])
  }

  // ---------------------------------------------------------------- reservations

  /** Whenever this run hands out `ip`, it is to a client presenting `mac` as its real MAC. */
  ghost predicate OnlyTo(c: Config, p: Pool, ops: seq<Op>, ip: Addr, mac: string)
    requires Run(c, p, ops)
    decreases |ops|
  {
    ops != [] ==>
      && (ops[0].AcquireOp? ==>
            var o := Acquire(c, p, ops[0].client, ops[0].now, ops[0].found);
            o.ip == Some(ip) ==> ops[0].client.uniqueMac && ops[0].client.macAddr == mac)
      && OnlyTo(c, After(c, p, ops[0]), ops[1..], ip, mac)
  }

  lemma ReservedStep(c: Config, p: Pool, op: Op, id: nat)
    requires Enabled(c, p, op) && id in p.rows && p.rows[id].keep
    ensures var q := After(c, p, op);
      && id in q.rows && q.rows[id].keep
      && q.rows[id].ipAddr == p.rows[id].ipAddr && q.rows[id].macAddr == p.rows[id].macAddr
    ensures op.AcquireOp? ==>
      var o := Acquire(c, p, op.client, op.now, op.found);
      o.ip == Some(p.rows[id].ipAddr) ==> op.client.uniqueMac && op.client.macAddr == p.rows[id].macAddr
  {
    if op.AcquireOp? {
      LoopSparesReserved(c, p, op.client, op.now, id);
      if op.client.uniqueMac && p.rows[id].macAddr != op.client.macAddr {
        DeleteMacKeepsValid(c, p, op.client.macAddr);
        LoopSparesReserved(c, p.(rows := DeleteMac(p.rows, op.client.macAddr)), op.client, op.now, id);
      }
    }
  }

  /** Over every run a reserved row survives with its address, MAC and flag, and its address goes only to that MAC. */
  lemma {:induction false} ReservationIsSafe(c: Config, p: Pool, ops: seq<Op>, id: nat)
    requires Run(c, p, ops) && id in p.rows && p.rows[id].keep
    ensures var q := End(c, p, ops);
      && id in q.rows && q.rows[id].keep
      && q.rows[id].ipAddr == p.rows[id].ipAddr && q.rows[id].macAddr == p.rows[id].macAddr
      && OnlyTo(c, p, ops, p.rows[id].ipAddr, p.rows[id].macAddr)
    decreases |ops|
  {
    if ops != [] {
      ReservedStep(c, p, ops[0], id);
      ReservationIsSafe(c, After(c, p, ops[0]), ops[1..], id);
    }
  }

  /** Nothing in any run makes a reservation: a row reserved at its end was reserved at its start. */
  lemma {:induction false} ReservationsAreOld(c: Config, p: Pool, ops: seq<Op>, id: nat)
    requires Run(c, p, ops) && id in End(c, p, ops).rows && End(c, p, ops).rows[id].keep
    ensures id in p.rows && p.rows[id].keep
    decreases |ops|
  {
    if ops != [] {
      ReservationsAreOld(c, After(c, p, ops[0]), ops[1..], id);
      if ops[0].AcquireOp? {
        ReservedBefore(c, p, ops[0].client, ops[0].now, ops[0].found, id);
      } else {
        ReleaseWrites(c, p, ops[0].ip, ops[0].now);
      }
    }
  }

  // ---------------------------------------------------------------- leases

  /** `ip` has a row naming `mac` as a real MAC. */
  ghost predicate Leased(p: Pool, ip: Addr, mac: string) {
    exists id :: id in p.rows && p.rows[id].ipAddr == ip && p.rows[id].macAddr == mac && p.rows[id].uniqueMac
  }

  ghost predicate LeasedSince(p: Pool, ip: Addr, mac: string, since: int) {
    exists id :: id in p.rows && p.rows[id].ipAddr == ip && p.rows[id].macAddr == mac && p.rows[id].uniqueMac
                 && since <= p.rows[id].lastLogin
  }

  /** An acquire by some other MAC. */
  predicate Foreign(op: Op, mac: string) {
    op.AcquireOp? ==> op.client.macAddr != mac
  }

  /** While the address is connected no other MAC can take its row over, whatever the time. */
  lemma {:induction false} LeaseHeldWhileActive(c: Config, p: Pool, ops: seq<Op>, ip: Addr, mac: string)
    requires Run(c, p, ops) && ip in p.active && Leased(p, ip, mac)
    requires forall op :: op in ops ==> Foreign(op, mac) && op != ReleaseOp(ip, op.now)
    ensures ip in End(c, p, ops).active && Leased(End(c, p, ops), ip, mac)
    decreases |ops|
  {
    if ops != [] {
      var id :| id in p.rows && p.rows[id].ipAddr == ip && p.rows[id].macAddr == mac && p.rows[id].uniqueMac;
      assert ops[0] in ops;
      if ops[0].AcquireOp? {
        AcquireFrame(c, p, ops[0].client, ops[0].now, ops[0].found, id);
        AcquireIsSafe(c, p, ops[0].client, ops[0].now, ops[0].found);
      }
      assert id in After(c, p, ops[0]).rows;
      LeaseHeldWhileActive(c, After(c, p, ops[0]), ops[1..], ip, mac);
    }
  }

  lemma ForeignAcquireKeepsLease(c: Config, p: Pool, client: Client, now: int, found: seq<nat>, id: nat, since: int)
    requires Valid(c, p) && ValidFind(p.rows, client.username, found)
    requires id in p.rows && p.rows[id].uniqueMac && since <= p.rows[id].lastLogin && now <= since + c.lease
    requires client.macAddr != p.rows[id].macAddr
    ensures var q := Acquire(c, p, client, now, found).pool;
            id in q.rows && q.rows[id] == p.rows[id]
  {
    AcquireFrame(c, p, client, now, found, id);
    LoopCases(c, p, client, now);
    if client.uniqueMac {
      DeleteMacKeepsValid(c, p, client.macAddr);
      LoopCases(c, p.(rows := DeleteMac(p.rows, client.macAddr)), client, now);
    }
  }

  /** After the release the lease protects the row until it runs out, also across uses of the address by the
      fallback. */
  lemma {:induction false} LeaseHeldUntilItEnds(c: Config, p: Pool, ops: seq<Op>, ip: Addr, mac: string, since: int)
    requires Run(c, p, ops) && LeasedSince(p, ip, mac, since)
    requires forall op :: op in ops ==> Foreign(op, mac) && since <= op.now <= since + c.lease
    ensures LeasedSince(End(c, p, ops), ip, mac, since)
    decreases |ops|
  {
    if ops != [] {
      var id :| id in p.rows && p.rows[id].ipAddr == ip && p.rows[id].macAddr == mac && p.rows[id].uniqueMac
                && since <= p.rows[id].lastLogin;
      assert ops[0] in ops;
      if ops[0].AcquireOp? {
        ForeignAcquireKeepsLease(c, p, ops[0].client, ops[0].now, ops[0].found, id, since);
      }
      var q := After(c, p, ops[0]);
      assert id in q.rows;
      LeaseHeldUntilItEnds(c, q, ops[1..], ip, mac, since);
    }
  }

  /** A leased address that lies in the pool comes back to its MAC exactly when nobody is connected on it. */
  lemma LeaseComesBack(c: Config, p: Pool, client: Client, now: int, found: seq<nat>, ip: Addr)
    requires Valid(c, p) && ValidFind(p.rows, client.username, found)
    requires client.uniqueMac && Leased(p, ip, client.macAddr) && InPool(c, ip)
    ensures Acquire(c, p, client, now, found).ip == Some(ip) <==> ip !in p.active
  {
    AcquireIsSafe(c, p, client, now, found);
  }

  /** Lease stickiness. A real MAC gets `ip` outside the fallback, other clients come and go (`during`), it is
      released, and other clients come and go within the lease (`since`): the next acquire by that MAC returns `ip`
      again exactly when it is not active at that moment. */
  lemma LeaseIsSticky(c: Config, p: Pool, first: Client, firstNow: int, firstFound: seq<nat>, ip: Addr,
                      during: seq<Op>, releasedAt: int, since: seq<Op>, again: Client, now: int, found: seq<nat>)
    requires InPool(c, ip) && first.uniqueMac && again.uniqueMac && again.macAddr == first.macAddr
    requires Enabled(c, p, AcquireOp(first, firstNow, firstFound))
    requires var o := Acquire(c, p, first, firstNow, firstFound); o.ip == Some(ip) && !o.fallback
    requires var p1 := After(c, p, AcquireOp(first, firstNow, firstFound));
             Run(c, p1, during) && Run(c, Release(End(c, p1, during), ip, releasedAt), since)
    requires forall op :: op in during ==> Foreign(op, first.macAddr) && op != ReleaseOp(ip, op.now)
    requires forall op :: op in since ==> Foreign(op, first.macAddr) && releasedAt <= op.now <= releasedAt + c.lease
    requires var p1 := After(c, p, AcquireOp(first, firstNow, firstFound));
             var p2 := End(c, Release(End(c, p1, during), ip, releasedAt), since);
             ValidFind(p2.rows, again.username, found)
    ensures var p1 := After(c, p, AcquireOp(first, firstNow, firstFound));
            var p2 := End(c, Release(End(c, p1, during), ip, releasedAt), since);
            Acquire(c, p2, again, now, found).ip == Some(ip) <==> ip !in p2.active
  {
    FallbackRowIsForeign(c, p, first, firstNow, firstFound);
    AcquireIsSafe(c, p, first, firstNow, firstFound);
    var p1 := After(c, p, AcquireOp(first, firstNow, firstFound));
    assert Leased(p1, ip, first.macAddr);
    LeaseHeldWhileActive(c, p1, during, ip, first.macAddr);
    var held := End(c, p1, during);
    var released := Release(held, ip, releasedAt);
    ReleaseStartsLease(c, held, ip, first.macAddr, releasedAt);
    LeaseHeldUntilItEnds(c, released, since, ip, first.macAddr, releasedAt);
    LeaseComesBack(c, End(c, released, since), again, now, found, ip);
  }

  lemma ReleaseStartsLease(c: Config, p: Pool, ip: Addr, mac: string, now: int)
    requires Valid(c, p) && Leased(p, ip, mac)
    ensures LeasedSince(Release(p, ip, now), ip, mac, now)
  {
    var id :| id in p.rows && p.rows[id].ipAddr == ip && p.rows[id].macAddr == mac && p.rows[id].uniqueMac;
    assert id in Release(p, ip, now).rows;
  }

  // ---------------------------------------------------------------- addresses come free

  /** The run neither hands out nor releases `ip`. */
  ghost predicate Spares(c: Config, p: Pool, ops: seq<Op>, ip: Addr)
    requires Run(c, p, ops)
    decreases |ops|
  {
    ops != [] ==>
      && (if ops[0].AcquireOp? then Acquire(c, p, ops[0].client, ops[0].now, ops[0].found).ip != Some(ip)
          else ops[0].ip != ip)
      && Spares(c, After(c, p, ops[0]), ops[1..], ip)
  }

  lemma {:induction false} SparedStays(c: Config, p: Pool, ops: seq<Op>, id: nat)
    requires Run(c, p, ops) && id in p.rows && p.rows[id].ipAddr !in p.active && Spares(c, p, ops, p.rows[id].ipAddr)
    requires forall op :: op in ops ==> Foreign(op, p.rows[id].macAddr)
    ensures var q := End(c, p, ops);
            id in q.rows && q.rows[id] == p.rows[id] && p.rows[id].ipAddr !in q.active
    decreases |ops|
  {
    if ops != [] {
      assert ops[0] in ops;
      if ops[0].AcquireOp? {
        AcquireFrame(c, p, ops[0].client, ops[0].now, ops[0].found, id);
        AcquireIsSafe(c, p, ops[0].client, ops[0].now, ops[0].found);
      } else {
        ReleaseWrites(c, p, ops[0].ip, ops[0].now);
      }
      SparedStays(c, After(c, p, ops[0]), ops[1..], id);
    }
  }

  /** An unreserved address that was released at `at`, and that no run of other clients hands out, is free to be taken
      by anybody exactly once the lease is over. */
  lemma FreeAgainExactlyWhen(c: Config, p: Pool, id: nat, at: int, ops: seq<Op>, later: int)
    requires Valid(c, p) && id in p.rows && !p.rows[id].keep
    requires var q := Release(p, p.rows[id].ipAddr, at); Run(c, q, ops) && Spares(c, q, ops, p.rows[id].ipAddr)
    requires forall op :: op in ops ==> Foreign(op, p.rows[id].macAddr)
    ensures Takable(c, End(c, Release(p, p.rows[id].ipAddr, at), ops), p.rows[id].ipAddr, later)
            <==> at + c.lease < later
  {
    var ip := p.rows[id].ipAddr;
    var q := Release(p, ip, at);
    ReleaseWrites(c, p, ip, at);
    SparedStays(c, q, ops, id);
    var end := End(c, q, ops);
    assert ByIp(end.rows, ip) == Some(id);
  }
}
