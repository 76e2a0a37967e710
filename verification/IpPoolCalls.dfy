/** What one call of the allocator answers and writes, read off the table before the call and with every field by
    name. */
module IpPoolCalls {
  import opened Wrappers
  import opened IpPool

  // ---------------------------------------------------------------- the answer

  /** Row `k` of the answered query is the first that nobody is connected on, that is not reserved, names no real MAC
      and lies in the pool. */
  ghost predicate IsFirstReusable(c: Config, p: Pool, found: seq<nat>, k: int) {
    0 <= k < |found| && MayReuse(c, p, found[k]) && forall j :: 0 <= j < k ==> !MayReuse(c, p, found[j])
  }

  ghost predicate MayReuse(c: Config, p: Pool, id: nat) {
    && id in p.rows && !p.rows[id].keep && !p.rows[id].uniqueMac
    && p.rows[id].ipAddr !in p.active && c.min <= p.rows[id].ipAddr <= c.max
  }

  lemma {:induction false} FirstReusableIsFirst(c: Config, p: Pool, found: seq<nat>)
    requires forall k :: 0 <= k < |found| ==> found[k] in p.rows
    ensures FirstReusable(c, p, found).None? ==> forall k :: !IsFirstReusable(c, p, found, k)
    ensures FirstReusable(c, p, found).Some? ==>
              exists k :: IsFirstReusable(c, p, found, k) && found[k] == FirstReusable(c, p, found).value
  {
    if found != [] {
      var rest := found[1..];
      if Reusable(c, p, p.rows[found[0]]) {
        assert IsFirstReusable(c, p, found, 0);
      } else if FirstReusable(c, p, rest).Some? {
        FirstReusableIsFirst(c, p, rest);
        var k :| IsFirstReusable(c, p, rest, k) && rest[k] == FirstReusable(c, p, rest).value;
        forall j | 0 <= j < k + 1 ensures !MayReuse(c, p, found[j]) {
          assert j > 0 ==> found[j] == rest[j - 1];
        }
        assert IsFirstReusable(c, p, found, k + 1);
      }
    }
  }

  /** A scan remembers the first of those with the earliest login. */
  lemma {:induction false} OldestIsFirst(c: Config, p: Pool, start: nat, end: Addr, now: int, best: Option<nat>)
    requires UniqueColumns(p.rows) && (best.Some? ==> best.value in p.rows)
    ensures var r := Oldest(c, p, start, end, now, best);
      r != best ==>
        && r.Some? && start <= p.rows[r.value].ipAddr <= end
        && (best.Some? ==> p.rows[r.value].lastLogin < p.rows[best.value].lastLogin)
        && forall a: Addr :: start <= a < p.rows[r.value].ipAddr && Evictable(c, p, a, now) ==>
             p.rows[r.value].lastLogin < p.rows[ByIp(p.rows, a).value].lastLogin
    decreases end + 1 - start
  {
    if start <= end {
      OldestIsFirst(c, p, start + 1, end, now, Older(c, p, start, now, best));
    }
  }

  /** Of two logins at one time the fallback takes the one that the scans meet first. */
  lemma FallbackTakesTheFirst(c: Config, p: Pool, client: Client, now: int, a: Addr)
    requires Valid(c, p) && Loop(c, p, client, now).fallback
    requires InScan(c, a) && Evictable(c, p, a, now)
    ensures var ip := Loop(c, p, client, now).ip.value;
            p.rows[ByIp(p.rows, ip).value].lastLogin == p.rows[ByIp(p.rows, a).value].lastLogin ==>
              ScanDistance(c, p.cur, ip) <= ScanDistance(c, p.cur, a)
  {
    var ahead := Oldest(c, p, p.cur, c.max, now, None);
    OldestIsFirst(c, p, p.cur, c.max, now, None);
    OldestIsFirst(c, p, c.min, p.cur, now, ahead);
    OldestIsOldest(c, p, p.cur, c.max, now, (ip: Addr) => false, None, (ip: Addr) => p.cur <= ip <= c.max);
    var id := Oldest(c, p, c.min, p.cur, now, ahead).value;
    assert ByIp(p.rows, p.rows[id].ipAddr) == Some(id);
  }

  /** What a search answers: the takable address that is nearest behind the cursor; without one, the evictable address
      with the earliest login, the nearest of several; without one, nothing. */
  ghost predicate Chosen(c: Config, p: Pool, now: int, ip: Option<Addr>) {
    match ip
    case None => forall a: Addr :: InScan(c, a) ==> Unavailable(c, p, a, now)
    case Some(i) =>
      && InScan(c, i)
      && if exists a: Addr :: InScan(c, a) && Takable(c, p, a, now)
         then Takable(c, p, i, now)
              && forall a: Addr :: InScan(c, a) && Takable(c, p, a, now) ==>
                   ScanDistance(c, p.cur, i) <= ScanDistance(c, p.cur, a)
         else Evictable(c, p, i, now)
              && forall a: Addr :: InScan(c, a) && Evictable(c, p, a, now) ==>
                   var mine, other := p.rows[ByIp(p.rows, i).value].lastLogin, p.rows[ByIp(p.rows, a).value].lastLogin;
                   mine < other || (mine == other && ScanDistance(c, p.cur, i) <= ScanDistance(c, p.cur, a))
  }

  lemma SearchIsChosen(c: Config, p: Pool, client: Client, now: int)
    requires Valid(c, p)
    ensures Chosen(c, p, now, Loop(c, p, client, now).ip)
    ensures var o := Loop(c, p, client, now);
            o.pool.cur == if o.ip.Some? && !o.fallback then o.ip.value else c.min
  {
    LoopMeaning(c, p, client, now);
    LoopCases(c, p, client, now);
    if Loop(c, p, client, now).fallback {
      forall a: Addr | InScan(c, a) && Evictable(c, p, a, now)
        ensures var i := Loop(c, p, client, now).ip.value;
                p.rows[ByIp(p.rows, i).value].lastLogin == p.rows[ByIp(p.rows, a).value].lastLogin ==>
                  ScanDistance(c, p.cur, i) <= ScanDistance(c, p.cur, a)
      {
        FallbackTakesTheFirst(c, p, client, now, a);
      }
    }
  }

  /** The answer of every call: a real MAC's own row if it can be handed out again, nothing if that row is reserved, the
      first reusable row of a user without a real MAC, and otherwise what the search may answer. */
  lemma AnswerIs(c: Config, p: Pool, client: Client, now: int, found: seq<nat>)
    requires Valid(c, p) && ValidFind(p.rows, client.username, found)
    ensures var ip := Acquire(c, p, client, now, found).ip;
            if client.uniqueMac && Renewable(c, p, client)
            then ip == Some(p.rows[ByMac(p.rows, client.macAddr).value].ipAddr)
            else if client.uniqueMac && Reserved(p, client) then ip == None
            else if !client.uniqueMac && exists k :: IsFirstReusable(c, p, found, k)
            then exists k :: IsFirstReusable(c, p, found, k) && ip == Some(p.rows[found[k]].ipAddr)
            else Chosen(c, Searched(p, client), now, ip)
  {
    var q := Searched(p, client);
    DeleteMacKeepsValid(c, p, client.macAddr);
    if ByMac(p.rows, client.macAddr).None? {
      NothingToDelete(p, client.macAddr);
    }
    FirstReusableIsFirst(c, p, found);
    SearchIsChosen(c, q, client, now);
  }

  // ---------------------------------------------------------------- what is written

  lemma TakeWrites(c: Config, p: Pool, ip: Addr, client: Client, now: int, id: nat)
    requires Valid(c, p) && id in Take(p, ip, client, now).pool.rows
    requires ByIp(p.rows, ip).Some? ==> !p.rows[ByIp(p.rows, ip).value].keep
    ensures var o := Take(p, ip, client, now);
      || (id in p.rows && o.pool.rows[id] == p.rows[id])
      || (!o.rejected && o.pool.rows[id] == IpMap(ip, client.macAddr, client.uniqueMac, client.username, false, now))
  {}

  lemma SearchWrites(c: Config, p: Pool, client: Client, now: int, id: nat)
    requires Valid(c, p) && id in Loop(c, p, client, now).pool.rows
    ensures var o := Loop(c, p, client, now);
      || (id in p.rows && o.pool.rows[id] == p.rows[id])
      || (o.ip.Some? && !o.fallback && !o.rejected
          && o.pool.rows[id] == IpMap(o.ip.value, client.macAddr, client.uniqueMac, client.username, false, now))
  {
    LoopCases(c, p, client, now);
    var o := Loop(c, p, client, now);
    if o.ip.Some? && !o.fallback {
      TakeWrites(c, p, o.ip.value, client, now, id);
    }
  }

  ghost predicate KeptAt(rows: Table, ip: Addr) {
    exists id :: id in rows && rows[id].ipAddr == ip && rows[id].keep
  }

  /** The row was written for the client by the call that answered `o`. Only a real MAC's own row can be reserved, if it
      was before. */
  ghost predicate Written(rows: Table, o: Outcome, client: Client, now: int, id: nat) {
    && o.ip.Some? && !o.fallback && !o.rejected && id in o.pool.rows
    && o.pool.rows[id] == IpMap(o.ip.value, client.macAddr, client.uniqueMac, client.username,
                                client.uniqueMac && id in rows && rows[id].keep, now)
  }

  /** A row that a call leaves is as it was, or is that of the returned address and written for the client. */
  lemma AcquireWrites(c: Config, p: Pool, client: Client, now: int, found: seq<nat>, id: nat)
    requires Valid(c, p) && ValidFind(p.rows, client.username, found)
    requires id in Acquire(c, p, client, now, found).pool.rows
    ensures var o := Acquire(c, p, client, now, found);
            (id in p.rows && o.pool.rows[id] == p.rows[id]) || Written(p.rows, o, client, now, id)
  {
    if client.uniqueMac {
      RealMacWrites(c, p, client, now, found, id);
    } else if FirstReusable(c, p, found).None? {
      SearchWrites(c, p, client, now, id);
    }
  }

  lemma RealMacWrites(c: Config, p: Pool, client: Client, now: int, found: seq<nat>, id: nat)
    requires Valid(c, p) && ValidFind(p.rows, client.username, found) && client.uniqueMac
    requires id in Acquire(c, p, client, now, found).pool.rows
    ensures var o := Acquire(c, p, client, now, found);
            (id in p.rows && o.pool.rows[id] == p.rows[id]) || Written(p.rows, o, client, now, id)
  {
    if !Renewable(c, p, client) && !Reserved(p, client) {
      var q := Searched(p, client);
      DeleteMacKeepsValid(c, p, client.macAddr);
      if ByMac(p.rows, client.macAddr).None? {
        NothingToDelete(p, client.macAddr);
      }
      SearchWrites(c, q, client, now, id);
    }
  }

  /** Nothing makes a reservation. */
  lemma ReservedBefore(c: Config, p: Pool, client: Client, now: int, found: seq<nat>, id: nat)
    requires Valid(c, p) && ValidFind(p.rows, client.username, found)
    ensures var rows := Acquire(c, p, client, now, found).pool.rows;
            id in rows && rows[id].keep ==> id in p.rows && p.rows[id].keep
  {
    if id in Acquire(c, p, client, now, found).pool.rows {
      AcquireWrites(c, p, client, now, found, id);
    }
  }

  lemma TakeIsWritten(c: Config, p: Pool, ip: Addr, client: Client, now: int) returns (id: nat)
    requires Valid(c, p) && !Take(p, ip, client, now).rejected
    requires ByIp(p.rows, ip).Some? ==> !p.rows[ByIp(p.rows, ip).value].keep
    ensures id == p.nextId || (id in p.rows && !p.rows[id].keep)
    ensures var rows := Take(p, ip, client, now).pool.rows;
            id in rows
            && rows[id] == IpMap(ip, client.macAddr, client.uniqueMac, client.username, false, now)
  {
    id := match ByIp(p.rows, ip) case Some(i) => i case None => p.nextId;
  }

  lemma SearchIsWritten(c: Config, p: Pool, client: Client, now: int) returns (id: nat)
    requires Valid(c, p)
    requires var o := Loop(c, p, client, now); o.ip.Some? && !o.fallback && !o.rejected
    ensures id == p.nextId || (id in p.rows && !p.rows[id].keep)
    ensures var o := Loop(c, p, client, now);
            id in o.pool.rows
            && o.pool.rows[id] == IpMap(o.ip.value, client.macAddr, client.uniqueMac, client.username, false, now)
  {
    LoopCases(c, p, client, now);
    id := TakeIsWritten(c, p, Loop(c, p, client, now).ip.value, client, now);
  }

  /** An address that a call returns outside the fallback has a row written for the client, unless a unique column
      refused it. */
  lemma ReturnedIsWritten(c: Config, p: Pool, client: Client, now: int, found: seq<nat>) returns (id: nat)
    requires Valid(c, p) && ValidFind(p.rows, client.username, found)
    requires var o := Acquire(c, p, client, now, found); o.ip.Some? && !o.fallback && !o.rejected
    ensures Written(p.rows, Acquire(c, p, client, now, found), client, now, id)
  {
    if client.uniqueMac && Renewable(c, p, client) {
      id := ByMac(p.rows, client.macAddr).value;
    } else if !client.uniqueMac && FirstReusable(c, p, found).Some? {
      id := FirstReusable(c, p, found).value;
    } else {
      DeleteMacKeepsValid(c, p, client.macAddr);
      if ByMac(p.rows, client.macAddr).None? {
        NothingToDelete(p, client.macAddr);
      }
      id := SearchIsWritten(c, Searched(p, client), client, now);
    }
  }

  /** A real MAC that is given nothing, or an address by the fallback, is left without any row, unless its own row is
      reserved. */
  lemma OldRowIsGone(c: Config, p: Pool, client: Client, now: int, found: seq<nat>)
    requires Valid(c, p) && ValidFind(p.rows, client.username, found) && client.uniqueMac
    ensures var o := Acquire(c, p, client, now, found);
            o.ip.None? || o.fallback ==>
              if Reserved(p, client) then o.pool.rows == p.rows
              else forall id :: id in o.pool.rows ==> o.pool.rows[id].macAddr != client.macAddr
  {
    var q := Searched(p, client);
    DeleteMacKeepsValid(c, p, client.macAddr);
    if ByMac(p.rows, client.macAddr).None? {
      NothingToDelete(p, client.macAddr);
    }
    LoopCases(c, q, client, now);
  }

  /** The cursor moves only with a search: to the address it found, or back to the first one. */
  lemma CursorIs(c: Config, p: Pool, client: Client, now: int, found: seq<nat>)
    requires Valid(c, p) && ValidFind(p.rows, client.username, found)
    ensures var o := Acquire(c, p, client, now, found);
            o.pool.cur == if client.uniqueMac && (Renewable(c, p, client) || Reserved(p, client)) then p.cur
                          else if !client.uniqueMac && exists k :: IsFirstReusable(c, p, found, k) then p.cur
                          else if o.ip.Some? && !o.fallback then o.ip.value
                          else c.min
  {
    var q := Searched(p, client);
    DeleteMacKeepsValid(c, p, client.macAddr);
    if ByMac(p.rows, client.macAddr).None? {
      NothingToDelete(p, client.macAddr);
    }
    FirstReusableIsFirst(c, p, found);
    SearchIsChosen(c, q, client, now);
  }

  // ---------------------------------------------------------------- a release

  /** A release changes the login time of that address's row to the present, and no other row. */
  lemma ReleaseWrites(c: Config, p: Pool, ip: Addr, now: int)
    requires Valid(c, p)
    ensures var q := Release(p, ip, now);
      && q.active == p.active - {ip} && q.cur == p.cur && q.rows.Keys == p.rows.Keys
      && forall id :: id in p.rows ==>
           q.rows[id] == if p.rows[id].ipAddr == ip then p.rows[id].(lastLogin := now) else p.rows[id]
  {}

  /** From the release on the address can be taken by anybody exactly when the lease is over. */
  lemma ReleasedIsFreeExactlyWhen(c: Config, p: Pool, ip: Addr, now: int, later: int)
    requires Valid(c, p) && ByIp(p.rows, ip).Some? && !KeptAt(p.rows, ip)
    ensures Takable(c, Release(p, ip, now), ip, later) <==> now + c.lease < later
  {
    var q := Release(p, ip, now);
    var id := ByIp(p.rows, ip).value;
    assert ByIp(q.rows, ip) == Some(id) by {
      assert id in q.rows && q.rows[id].ipAddr == ip;
    }
  }
}
