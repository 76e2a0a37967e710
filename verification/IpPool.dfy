/** The dynamic address allocator: the ip_map table, the in-memory active set and the rotating scan cursor.

    The first half is the specification: what one call does to the whole allocator state, as functions on values.
    The second half is the allocator itself, a class whose loops update that state in place, proved against them. */
module IpPool {
  import opened Wrappers

  const ADDRESS_SPACE: int := 0x1_0000_0000

  /** An IPv4 address as the uint32 the scan loops count with. */
  type Addr = a: int | 0 <= a < ADDRESS_SPACE

  /** One row of the ip_map table without its Id. */
  datatype IpMap = IpMap(ipAddr: Addr, macAddr: string, uniqueMac: bool, username: string, keep: bool, lastLogin: int)

  /** The table, keyed by the auto-increment Id. */
  type Table = map<nat, IpMap>

  /** IpLongMin, IpLongMax and the lease. The start may exceed the end: start-up only checks that both are in the
      CIDR. */
  datatype Config = Config(min: Addr, max: Addr, lease: int)

  datatype Pool = Pool(rows: Table, nextId: nat, active: set<Addr>, cur: Addr)

  /** What a call answers: the address, whether the oldest-login fallback chose it, and whether a table write was
      refused by a unique column (an error the code drops). */
  datatype Outcome = Outcome(pool: Pool, ip: Option<Addr>, fallback: bool, rejected: bool)

  /** The client asking for an address. */
  datatype Client = Client(username: string, macAddr: string, uniqueMac: bool)

  // ---------------------------------------------------------------- the table

  ghost predicate UniqueColumns(rows: Table) {
    && (forall i, j :: i in rows && j in rows && rows[i].ipAddr == rows[j].ipAddr ==> i == j)
    && (forall i, j :: i in rows && j in rows && rows[i].macAddr == rows[j].macAddr ==> i == j)
  }

  /** Whether writing `row` under `id` respects both unique columns. */
  predicate Fits(rows: Table, id: nat, row: IpMap) {
    forall j :: j in rows && j != id ==> rows[j].ipAddr != row.ipAddr && rows[j].macAddr != row.macAddr
  }

  /** Set: update by Id; a missing Id touches nothing and a clash fails. */
  function Update(rows: Table, id: nat, row: IpMap): Table {
    if id in rows && Fits(rows, id, row) then rows[id := row] else rows
  }

  /** One("ip_addr", ip). */
  ghost function ByIp(rows: Table, ip: int): (r: Option<nat>)
    ensures r.Some? ==> r.value in rows && rows[r.value].ipAddr == ip
    ensures r.None? ==> forall id :: id in rows ==> rows[id].ipAddr != ip
  {
    if id :| id in rows && rows[id].ipAddr == ip then Some(id) else None
  }

  /** One("mac_addr", mac). */
  ghost function ByMac(rows: Table, mac: string): (r: Option<nat>)
    ensures r.Some? ==> r.value in rows && rows[r.value].macAddr == mac
    ensures r.None? ==> forall id :: id in rows ==> rows[id].macAddr != mac
  {
    if id :| id in rows && rows[id].macAddr == mac then Some(id) else None
  }

  /** Del by MAC: every row naming that MAC goes. */
  function DeleteMac(rows: Table, mac: string): Table {
    map id | id in rows && rows[id].macAddr != mac :: rows[id]
  }

  // ---------------------------------------------------------------- one scan

  function Last(c: Config): Addr { if c.min <= c.max then c.max else c.min }

  /** The addresses the scans can reach. */
  predicate InScan(c: Config, ip: int) { c.min <= ip <= Last(c) }

  /** ipInPool. */
  predicate InPool(c: Config, ip: int) { c.min <= ip <= c.max }

  /** A scan that ended on the last uint32 would never stop. */
  predicate ValidConfig(c: Config) { Last(c) < ADDRESS_SPACE - 1 }

  ghost predicate Valid(c: Config, p: Pool) {
    && ValidConfig(c)
    && UniqueColumns(p.rows)
    && 0 !in p.rows && 0 < p.nextId
    && (forall id :: id in p.rows ==> id < p.nextId)
    && InScan(c, p.cur)
    && (forall ip :: ip in p.active ==> InScan(c, ip))
  }

  predicate Expired(c: Config, row: IpMap, now: int) { row.lastLogin < now - c.lease }

  /** A scan stops here: inactive, and without a row or with an unreserved expired one. */
  ghost predicate Takable(c: Config, p: Pool, ip: Addr, now: int) {
    && ip !in p.active
    && (var row := ByIp(p.rows, ip);
        row.None? || (!p.rows[row.value].keep && Expired(c, p.rows[row.value], now)))
  }

  /** A scan passes over this address but remembers it for the fallback. */
  ghost predicate Evictable(c: Config, p: Pool, ip: Addr, now: int) {
    && ip !in p.active
    && (var row := ByIp(p.rows, ip);
        && row.Some? && !p.rows[row.value].keep
        && !Expired(c, p.rows[row.value], now) && p.rows[row.value].lastLogin < now)
  }

  /** The first address of start..end where a scan stops. */
  ghost function FirstTakable(c: Config, p: Pool, start: nat, end: Addr, now: int): Option<Addr>
    decreases end - start
  {
    if start > end then None
    else if Takable(c, p, start, now) then Some(start)
    else FirstTakable(c, p, start + 1, end, now)
  }

  /** The row with the earliest login a scan of start..end has seen, `best` being the one known before it. */
  ghost function Oldest(c: Config, p: Pool, start: nat, end: Addr, now: int, best: Option<nat>): (r: Option<nat>)
    requires best.Some? ==> best.value in p.rows
    ensures r.Some? ==> r.value in p.rows
    decreases end - start
  {
    if start > end then best
    else Oldest(c, p, start + 1, end, now, Older(c, p, start, now, best))
  }

  ghost function Older(c: Config, p: Pool, ip: Addr, now: int, best: Option<nat>): (r: Option<nat>)
    requires best.Some? ==> best.value in p.rows
    ensures r.Some? ==> r.value in p.rows
  {
    if Evictable(c, p, ip, now)
       && (best.None? || p.rows[ByIp(p.rows, ip).value].lastLogin < p.rows[best.value].lastLogin)
    then ByIp(p.rows, ip) else best
  }

  // ---------------------------------------------------------------- whole calls

  /** Answer `row.ipAddr` and write `row` back under its Id. */
  function Renew(p: Pool, id: nat, row: IpMap): Outcome {
    Outcome(p.(rows := Update(p.rows, id, row), active := p.active + {row.ipAddr}),
            Some(row.ipAddr), false, !Fits(p.rows, id, row))
  }

  function Owned(row: IpMap, client: Client, now: int): IpMap {
    row.(username := client.username, lastLogin := now, macAddr := client.macAddr, uniqueMac := client.uniqueMac)
  }

  function NewRow(ip: Addr, client: Client, now: int): IpMap {
    IpMap(ip, client.macAddr, client.uniqueMac, client.username, false, now)
  }

  /** Hand out an address a scan stopped at. */
  ghost function Take(p: Pool, ip: Addr, client: Client, now: int): Outcome {
    match ByIp(p.rows, ip)
    case Some(id) => Renew(p, id, Owned(p.rows[id], client, now))
    case None =>
      var row := NewRow(ip, client, now);
      var fits := Fits(p.rows, p.nextId, row);
      Outcome(p.(rows := if fits then p.rows[p.nextId := row] else p.rows,
                 nextId := p.nextId + 1, active := p.active + {ip}), Some(ip), false, !fits)
  }

  /** loopIp: two scans from the cursor, then the oldest login. */
  ghost function Loop(c: Config, p: Pool, client: Client, now: int): (o: Outcome)
    requires Valid(c, p)
  {
    match FirstTakable(c, p, p.cur, c.max, now)
    case Some(i) => Moved(Take(p, i, client, now), i)
    case None =>
    match FirstTakable(c, p, c.min, p.cur, now)
    case Some(i) => Moved(Take(p, i, client, now), i)
    case None =>
    match Oldest(c, p, c.min, p.cur, now, Oldest(c, p, p.cur, c.max, now, None))
    case Some(id) =>
      var ip := p.rows[id].ipAddr;
      Outcome(p.(cur := c.min, active := p.active + {ip}), Some(ip), true, false)
    case None => Outcome(p.(cur := c.min), None, false, false)
  }

  function Moved(o: Outcome, cur: Addr): Outcome { o.(pool := o.pool.(cur := cur)) }

  /** What the query for a user's rows may answer: at most 30 rows of that user, all of them when there are fewer. */
  ghost predicate ValidFind(rows: Table, username: string, found: seq<nat>) {
    && |found| <= 30
    && (forall k :: 0 <= k < |found| ==> found[k] in rows && rows[found[k]].username == username)
    && (|found| < 30 ==> forall id :: id in rows && rows[id].username == username ==> id in found)
  }

  predicate Reusable(c: Config, p: Pool, row: IpMap) {
    row.ipAddr !in p.active && !row.keep && !row.uniqueMac && InPool(c, row.ipAddr)
  }

  function FirstReusable(c: Config, p: Pool, found: seq<nat>): (r: Option<nat>)
    requires forall k :: 0 <= k < |found| ==> found[k] in p.rows
    ensures r.Some? ==> r.value in found && Reusable(c, p, p.rows[r.value])
    ensures r.None? ==> forall id :: id in found ==> !Reusable(c, p, p.rows[id])
  {
    if found == [] then None
    else if Reusable(c, p, p.rows[found[0]]) then Some(found[0])
    else FirstReusable(c, p, found[1..])
  }

  /** AcquireIp. */
  ghost function Acquire(c: Config, p: Pool, client: Client, now: int, found: seq<nat>): Outcome
    requires Valid(c, p) && ValidFind(p.rows, client.username, found)
  {
    if client.uniqueMac then
      match ByMac(p.rows, client.macAddr)
      case None => Loop(c, p, client, now)
      case Some(id) =>
        var row := p.rows[id];
        if row.ipAddr !in p.active && InPool(c, row.ipAddr) then
          Renew(p, id, row.(username := client.username, lastLogin := now, uniqueMac := true))
        else if row.keep then Outcome(p, None, false, false)
        else
          DeleteMacKeepsValid(c, p, client.macAddr);
          Loop(c, p.(rows := DeleteMac(p.rows, client.macAddr)), client, now)
    else
      match FirstReusable(c, p, found)
      case Some(id) => Renew(p, id, Owned(p.rows[id], client, now))
      case None => Loop(c, p, client, now)
  }

  lemma DeleteMacKeepsValid(c: Config, p: Pool, mac: string)
    requires Valid(c, p)
    ensures Valid(c, p.(rows := DeleteMac(p.rows, mac)))
  {}

  /** ReleaseIp. */
  ghost function Release(p: Pool, ip: Addr, now: int): Pool {
    var q := p.(active := p.active - {ip});
    match ByIp(p.rows, ip)
    case None => q
    case Some(id) => q.(rows := Update(p.rows, id, p.rows[id].(lastLogin := now)))
  }

  // ---------------------------------------------------------------- what a call keeps

  lemma TakeKeepsValid(c: Config, p: Pool, ip: Addr, client: Client, now: int)
    requires Valid(c, p) && InScan(c, ip)
    ensures Valid(c, Take(p, ip, client, now).pool)
  {}

  lemma {:induction false} FirstTakableIsFirst(c: Config, p: Pool, start: nat, end: Addr, now: int)
    ensures var r := FirstTakable(c, p, start, end, now);
            match r
            case None => forall ip: Addr :: start <= ip <= end ==> !Takable(c, p, ip, now)
            case Some(i) => start <= i <= end && Takable(c, p, i, now)
                            && forall ip: Addr :: start <= ip < i ==> !Takable(c, p, ip, now)
    decreases end - start
  {
    if start <= end && !Takable(c, p, start, now) {
      FirstTakableIsFirst(c, p, start + 1, end, now);
    }
  }

  /** `best` is the earliest login among the evictable addresses of which `seen` is true. */
  ghost predicate IsOldest(c: Config, p: Pool, now: int, seen: Addr -> bool, best: Option<nat>) {
    match best
    case None => forall ip: Addr :: seen(ip) ==> !Evictable(c, p, ip, now)
    case Some(id) =>
      && id in p.rows && seen(p.rows[id].ipAddr) && Evictable(c, p, p.rows[id].ipAddr, now)
      && ByIp(p.rows, p.rows[id].ipAddr) == Some(id)
      && forall ip: Addr :: seen(ip) && Evictable(c, p, ip, now) ==>
           p.rows[id].lastLogin <= p.rows[ByIp(p.rows, ip).value].lastLogin
  }

  lemma {:induction false} OldestIsOldest(c: Config, p: Pool, start: nat, end: Addr, now: int,
                                          seen: Addr -> bool, best: Option<nat>, all: Addr -> bool)
    requires UniqueColumns(p.rows)
    requires IsOldest(c, p, now, seen, best)
    requires forall ip: Addr :: all(ip) <==> seen(ip) || start <= ip <= end
    ensures IsOldest(c, p, now, all, Oldest(c, p, start, end, now, best))
    decreases end - start
  {
    if start <= end {
      OldestIsOldest(c, p, start + 1, end, now, (ip: Addr) => seen(ip) || ip == start, Older(c, p, start, now, best),
                     all);
    }
  }

  /** How many addresses a scan that starts at the cursor and wraps once passes before `ip`. */
  function ScanDistance(c: Config, cur: Addr, ip: Addr): int {
    if ip >= cur then ip - cur else ip - cur + (Last(c) - c.min + 1)
  }

  /** An address that neither the scans nor the fallback may hand out. */
  ghost predicate Unavailable(c: Config, p: Pool, ip: Addr, now: int) {
    || ip in p.active
    || (var row := ByIp(p.rows, ip);
        row.Some? && (p.rows[row.value].keep
                      || (!Expired(c, p.rows[row.value], now) && now <= p.rows[row.value].lastLogin)))
  }

  lemma TwoScansFindTheNearest(c: Config, p: Pool, now: int)
    requires Valid(c, p)
    ensures var ahead, wrapped := FirstTakable(c, p, p.cur, c.max, now), FirstTakable(c, p, c.min, p.cur, now);
            var first := if ahead.Some? then ahead else wrapped;
      match first
      case None => forall ip: Addr :: InScan(c, ip) ==> !Takable(c, p, ip, now)
      case Some(i) => InScan(c, i) && Takable(c, p, i, now)
                      && forall ip: Addr :: InScan(c, ip) && Takable(c, p, ip, now) ==>
                           ScanDistance(c, p.cur, i) <= ScanDistance(c, p.cur, ip)
  {
    FirstTakableIsFirst(c, p, p.cur, c.max, now);
    FirstTakableIsFirst(c, p, c.min, p.cur, now);
  }

  lemma TwoScansFindTheOldest(c: Config, p: Pool, now: int)
    requires Valid(c, p)
    ensures IsOldest(c, p, now, (ip: Addr) => InScan(c, ip),
                     Oldest(c, p, c.min, p.cur, now, Oldest(c, p, p.cur, c.max, now, None)))
  {
    var ahead := Oldest(c, p, p.cur, c.max, now, None);
    OldestIsOldest(c, p, p.cur, c.max, now, (ip: Addr) => false, None, (ip: Addr) => p.cur <= ip <= c.max);
    OldestIsOldest(c, p, c.min, p.cur, now, (ip: Addr) => p.cur <= ip <= c.max, ahead, (ip: Addr) => InScan(c, ip));
  }

  lemma UnavailableMeans(c: Config, p: Pool, ip: Addr, now: int)
    ensures Unavailable(c, p, ip, now) <==> !Takable(c, p, ip, now) && !Evictable(c, p, ip, now)
  {}

  /** loopIp stated without its scans: the nearest takable address after the cursor, else the oldest evictable login,
      else nothing, and nothing exactly when every address is unavailable. */
  lemma LoopMeaning(c: Config, p: Pool, client: Client, now: int)
    requires Valid(c, p)
    ensures var o := Loop(c, p, client, now);
      && (o.ip.None? <==> forall ip: Addr :: InScan(c, ip) ==> Unavailable(c, p, ip, now))
      && (o.fallback <==> o.ip.Some? && forall ip: Addr :: InScan(c, ip) ==> !Takable(c, p, ip, now))
      && (o.ip.Some? && !o.fallback ==>
            && InScan(c, o.ip.value) && Takable(c, p, o.ip.value, now) && o.pool.cur == o.ip.value
            && forall ip: Addr :: InScan(c, ip) && Takable(c, p, ip, now) ==>
                 ScanDistance(c, p.cur, o.ip.value) <= ScanDistance(c, p.cur, ip))
      && (o.fallback ==>
            && InScan(c, o.ip.value) && Evictable(c, p, o.ip.value, now)
            && o.pool == p.(cur := c.min, active := p.active + {o.ip.value})
            && forall ip: Addr :: InScan(c, ip) && Evictable(c, p, ip, now) ==>
                 p.rows[ByIp(p.rows, o.ip.value).value].lastLogin <= p.rows[ByIp(p.rows, ip).value].lastLogin)
  {
    LoopCases(c, p, client, now);
    TwoScansFindTheNearest(c, p, now);
    TwoScansFindTheOldest(c, p, now);
    forall ip: Addr
      ensures Unavailable(c, p, ip, now) <==> !Takable(c, p, ip, now) && !Evictable(c, p, ip, now)
    {
      UnavailableMeans(c, p, ip, now);
    }
  }

  /** The three ways loopIp can end. */
  lemma LoopCases(c: Config, p: Pool, client: Client, now: int)
    requires Valid(c, p)
    ensures var o := Loop(c, p, client, now);
      || o == Outcome(p.(cur := c.min), None, false, false)
      || (o.fallback && o.ip.Some? && InScan(c, o.ip.value) && Evictable(c, p, o.ip.value, now)
          && o == Outcome(p.(cur := c.min, active := p.active + {o.ip.value}), o.ip, true, false))
      || (!o.fallback && o.ip.Some? && InScan(c, o.ip.value) && Takable(c, p, o.ip.value, now)
          && o == Moved(Take(p, o.ip.value, client, now), o.ip.value))
  {
    TwoScansFindTheNearest(c, p, now);
    TwoScansFindTheOldest(c, p, now);
  }

  /** Every loopIp leaves a valid allocator and an address that was free, is now active, and lies in the scan range. */
  lemma LoopIsSafe(c: Config, p: Pool, client: Client, now: int)
    requires Valid(c, p)
    ensures Safe(c, p, Loop(c, p, client, now))
  {
    LoopCases(c, p, client, now);
    var o := Loop(c, p, client, now);
    if o.ip.Some? && !o.fallback {
      TakeKeepsValid(c, p, o.ip.value, client, now);
    }
  }

  ghost predicate Safe(c: Config, p: Pool, o: Outcome) {
    && Valid(c, o.pool)
    && (o.ip.None? ==> o.pool.active == p.active)
    && (o.ip.Some? ==> o.ip.value !in p.active && InScan(c, o.ip.value) && o.pool.active == p.active + {o.ip.value})
  }

  lemma RenewIsSafe(c: Config, p: Pool, id: nat, row: IpMap)
    requires Valid(c, p) && id in p.rows
    requires row.ipAddr == p.rows[id].ipAddr && row.ipAddr !in p.active && InScan(c, row.ipAddr)
    ensures Safe(c, p, Renew(p, id, row))
  {}

  lemma AcquireIsSafe(c: Config, p: Pool, client: Client, now: int, found: seq<nat>)
    requires Valid(c, p) && ValidFind(p.rows, client.username, found)
    ensures Safe(c, p, Acquire(c, p, client, now, found))
  {
    if client.uniqueMac {
      RealMacIsSafe(c, p, client, now, found);
    } else {
      match FirstReusable(c, p, found)
      case Some(id) => RenewIsSafe(c, p, id, Owned(p.rows[id], client, now));
      case None => LoopIsSafe(c, p, client, now);
    }
  }

  lemma RealMacIsSafe(c: Config, p: Pool, client: Client, now: int, found: seq<nat>)
    requires Valid(c, p) && ValidFind(p.rows, client.username, found) && client.uniqueMac
    ensures Safe(c, p, Acquire(c, p, client, now, found))
  {
    match ByMac(p.rows, client.macAddr)
    case None => LoopIsSafe(c, p, client, now);
    case Some(id) =>
      var row := p.rows[id];
      if row.ipAddr !in p.active && InPool(c, row.ipAddr) {
        RenewIsSafe(c, p, id, row.(username := client.username, lastLogin := now, uniqueMac := true));
      } else {
        DeleteMacKeepsValid(c, p, client.macAddr);
        LoopIsSafe(c, p.(rows := DeleteMac(p.rows, client.macAddr)), client, now);
      }
  }

  lemma ReleaseIsSafe(c: Config, p: Pool, ip: Addr, now: int)
    requires Valid(c, p)
    ensures Valid(c, Release(p, ip, now)) && Release(p, ip, now).active == p.active - {ip}
  {}

  /** A new address is rejected exactly when some other row names the MAC. */
  ghost predicate MacElsewhere(rows: Table, mac: string, ip: Addr) {
    exists id :: id in rows && rows[id].macAddr == mac && rows[id].ipAddr != ip
  }

  lemma TakeRejects(c: Config, p: Pool, ip: Addr, client: Client, now: int)
    requires Valid(c, p)
    ensures Take(p, ip, client, now).rejected <==> MacElsewhere(p.rows, client.macAddr, ip)
  {}

  lemma TakeOwns(c: Config, p: Pool, ip: Addr, client: Client, now: int)
    requires Valid(c, p) && !MacElsewhere(p.rows, client.macAddr, ip)
    ensures var rows := Take(p, ip, client, now).pool.rows;
            var id := ByIp(rows, ip);
            id.Some? && rows[id.value] == Owned(rows[id.value], client, now)
  {
    var id := match ByIp(p.rows, ip) case Some(i) => i case None => p.nextId;
    assert id in Take(p, ip, client, now).pool.rows;
  }

  /** The table a search by a real MAC works on: rows naming the MAC are gone, and nobody else's. */
  ghost function Searched(p: Pool, client: Client): Pool {
    if client.uniqueMac then p.(rows := DeleteMac(p.rows, client.macAddr)) else p
  }

  /** The MAC's own row is handed out again. */
  ghost predicate Renewable(c: Config, p: Pool, client: Client) {
    var id := ByMac(p.rows, client.macAddr);
    id.Some? && p.rows[id.value].ipAddr !in p.active && InPool(c, p.rows[id.value].ipAddr)
  }

  ghost predicate Reserved(p: Pool, client: Client) {
    var id := ByMac(p.rows, client.macAddr);
    id.Some? && p.rows[id.value].keep
  }

  /** Before the call: a real MAC will be given an address by the fallback. Its own row can not be handed out again
      and is not reserved, no address is free to take, and some row can be evicted. */
  ghost predicate FallsBack(c: Config, p: Pool, client: Client, now: int) {
    && !Renewable(c, p, client) && !Reserved(p, client)
    && (forall ip: Addr :: InScan(c, ip) ==> !Takable(c, Searched(p, client), ip, now))
    && (exists ip: Addr :: InScan(c, ip) && Evictable(c, Searched(p, client), ip, now))
  }

  lemma LoopFallsBackExactlyWhen(c: Config, p: Pool, client: Client, now: int)
    requires Valid(c, p)
    ensures Loop(c, p, client, now).fallback <==>
            && (forall ip: Addr :: InScan(c, ip) ==> !Takable(c, p, ip, now))
            && (exists ip: Addr :: InScan(c, ip) && Evictable(c, p, ip, now))
  {
    LoopMeaning(c, p, client, now);
    forall ip: Addr
      ensures Unavailable(c, p, ip, now) <==> !Takable(c, p, ip, now) && !Evictable(c, p, ip, now)
    {
      UnavailableMeans(c, p, ip, now);
    }
  }

  lemma NothingToDelete(p: Pool, mac: string)
    requires ByMac(p.rows, mac).None?
    ensures DeleteMac(p.rows, mac) == p.rows
  {}

  /** A call's address lies in the pool exactly when the configuration is ordered; otherwise it is IpLongMin. */
  lemma ReturnedInPoolExactlyWhenOrdered(c: Config, p: Pool, client: Client, now: int, found: seq<nat>)
    requires Valid(c, p) && ValidFind(p.rows, client.username, found)
    ensures var ip := Acquire(c, p, client, now, found).ip;
            ip.Some? ==> (InPool(c, ip.value) <==> c.min <= c.max) && (c.min > c.max ==> ip.value == c.min)
  {
    AcquireIsSafe(c, p, client, now, found);
  }

  /** With IpLongMin above IpLongMax a call still returns IpLongMin, which is outside the pool, exactly when that
      address is inactive and free, expired or evictable, unless a real MAC's own row is reserved. */
  lemma MisorderedReturnsExactlyWhen(c: Config, p: Pool, client: Client, now: int, found: seq<nat>)
    requires Valid(c, p) && ValidFind(p.rows, client.username, found) && c.min > c.max
    ensures Acquire(c, p, client, now, found).ip
            == if Unavailable(c, Searched(p, client), c.min, now) || (client.uniqueMac && Reserved(p, client)) then None
               else Some(c.min)
  {
    AcquireIsSafe(c, p, client, now, found);
    DeleteMacKeepsValid(c, p, client.macAddr);
    LoopMeaning(c, Searched(p, client), client, now);
    if client.uniqueMac && ByMac(p.rows, client.macAddr).None? {
      NothingToDelete(p, client.macAddr);
    }
  }

  /** So the first client of a misordered configuration is given an address outside its pool. */
  lemma MisorderedFirstClient(c: Config, client: Client, now: int)
    requires ValidConfig(c) && c.min > c.max
    ensures var start := Pool(map[], 1, {}, c.min);
            Valid(c, start) && Acquire(c, start, client, now, []).ip == Some(c.min) && !InPool(c, c.min)
  {
    var start := Pool(map[], 1, {}, c.min);
    assert Searched(start, client) == start;
    MisorderedReturnsExactlyWhen(c, start, client, now, []);
  }

  /** The fallback serves a real MAC exactly then. */
  lemma FallbackExactlyWhen(c: Config, p: Pool, client: Client, now: int, found: seq<nat>)
    requires Valid(c, p) && ValidFind(p.rows, client.username, found) && client.uniqueMac
    ensures Acquire(c, p, client, now, found).fallback <==> FallsBack(c, p, client, now)
  {
    DeleteMacKeepsValid(c, p, client.macAddr);
    LoopFallsBackExactlyWhen(c, Searched(p, client), client, now);
    if ByMac(p.rows, client.macAddr).None? {
      NothingToDelete(p, client.macAddr);
    }
  }

  lemma FallbackRowIsForeign(c: Config, p: Pool, client: Client, now: int, found: seq<nat>)
    requires Valid(c, p) && ValidFind(p.rows, client.username, found) && client.uniqueMac
    requires Acquire(c, p, client, now, found).ip.Some?
    ensures var o := Acquire(c, p, client, now, found);
            var id := ByIp(o.pool.rows, o.ip.value);
      && id.Some?
      && (!o.fallback ==> var row := o.pool.rows[id.value];
            row.macAddr == client.macAddr && row.username == client.username && row.uniqueMac && row.lastLogin == now)
      && (o.fallback ==> o.pool.rows[id.value].macAddr != client.macAddr)
  {
    AcquireIsSafe(c, p, client, now, found);
    if Renewable(c, p, client) {
      assert ByMac(p.rows, client.macAddr).value in Acquire(c, p, client, now, found).pool.rows;
    } else {
      var q := Searched(p, client);
      DeleteMacKeepsValid(c, p, client.macAddr);
      if ByMac(p.rows, client.macAddr).None? {
        NothingToDelete(p, client.macAddr);
      }
      LoopCases(c, q, client, now);
      var o := Loop(c, q, client, now);
      if !o.fallback {
        TakeOwns(c, q, o.ip.value, client, now);
      }
    }
  }

  /** After a successful acquire by a real MAC the row of the returned address names that client at the current time
      exactly unless, before the call, its row could not be handed out again, nothing was free and the oldest login
      had to be evicted. */
  lemma RealMacRowExactlyUnlessFallsBack(c: Config, p: Pool, client: Client, now: int, found: seq<nat>)
    requires Valid(c, p) && ValidFind(p.rows, client.username, found) && client.uniqueMac
    requires Acquire(c, p, client, now, found).ip.Some?
    ensures var o := Acquire(c, p, client, now, found);
            var id := ByIp(o.pool.rows, o.ip.value);
      && id.Some?
      && (o.pool.rows[id.value] == Owned(o.pool.rows[id.value], client, now) <==> !FallsBack(c, p, client, now))
  {
    FallbackRowIsForeign(c, p, client, now, found);
    FallbackExactlyWhen(c, p, client, now, found);
  }

  /** Before the call: `ip` is what a client without a real MAC will be given and its row written for: the address of
      the first reusable row of its user, else the nearest takable one. */
  ghost predicate WillTake(c: Config, p: Pool, now: int, found: seq<nat>, ip: Addr)
    requires forall k :: 0 <= k < |found| ==> found[k] in p.rows
  {
    match FirstReusable(c, p, found)
    case Some(id) => ip == p.rows[id].ipAddr
    case None =>
      && InScan(c, ip) && Takable(c, p, ip, now)
      && forall other: Addr :: InScan(c, other) && Takable(c, p, other, now) ==>
           ScanDistance(c, p.cur, ip) <= ScanDistance(c, p.cur, other)
  }

  lemma TakesWhatItWill(c: Config, p: Pool, client: Client, now: int, found: seq<nat>, ip: Addr)
    requires Valid(c, p) && ValidFind(p.rows, client.username, found) && !client.uniqueMac
    ensures var o := Acquire(c, p, client, now, found);
            o.ip == Some(ip) && !o.fallback <==> WillTake(c, p, now, found, ip)
  {
    LoopMeaning(c, p, client, now);
    LoopCases(c, p, client, now);
    assert FirstReusable(c, p, found).None? && WillTake(c, p, now, found, ip) ==>
             InScan(c, ip) && Takable(c, p, ip, now);
  }

  /** A table write is refused by a unique column exactly when, before the call, the client has no real MAC and a row of
      another address than the one it will be given names its MAC. For a real MAC that cannot be: the row naming it is
      either the one renewed or was deleted first. */
  lemma RejectedExactlyWhen(c: Config, p: Pool, client: Client, now: int, found: seq<nat>)
    requires Valid(c, p) && ValidFind(p.rows, client.username, found)
    ensures Acquire(c, p, client, now, found).rejected <==>
            && !client.uniqueMac
            && exists ip: Addr :: WillTake(c, p, now, found, ip) && MacElsewhere(p.rows, client.macAddr, ip)
  {
    RejectedOnTheReturned(c, p, client, now, found);
    var o := Acquire(c, p, client, now, found);
    if !client.uniqueMac {
      if o.ip.Some? && !o.fallback {
        TakesWhatItWill(c, p, client, now, found, o.ip.value);
      }
      forall ip: Addr | WillTake(c, p, now, found, ip) ensures o.ip == Some(ip) && !o.fallback {
        TakesWhatItWill(c, p, client, now, found, ip);
      }
    }
  }

  lemma RejectedOnTheReturned(c: Config, p: Pool, client: Client, now: int, found: seq<nat>)
    requires Valid(c, p) && ValidFind(p.rows, client.username, found)
    ensures var o := Acquire(c, p, client, now, found);
      o.rejected <==> && o.ip.Some? && !o.fallback && !client.uniqueMac
                      && MacElsewhere(p.rows, client.macAddr, o.ip.value)
  {
    var q := Searched(p, client);
    DeleteMacKeepsValid(c, p, client.macAddr);
    if ByMac(p.rows, client.macAddr).None? {
      NothingToDelete(p, client.macAddr);
    }
    LoopCases(c, q, client, now);
    var o := Loop(c, q, client, now);
    if o.ip.Some? && !o.fallback {
      TakeRejects(c, q, o.ip.value, client, now);
    }
  }

  lemma LoopFrame(c: Config, p: Pool, client: Client, now: int, id: nat)
    requires Valid(c, p) && id in p.rows
    ensures var o := Loop(c, p, client, now);
            id in o.pool.rows
            && (o.pool.rows[id] == p.rows[id] || (!o.fallback && o.ip == Some(p.rows[id].ipAddr)))
  {
    LoopCases(c, p, client, now);
  }

  /** The scans and the fallback pass over reserved rows. */
  lemma LoopSparesReserved(c: Config, p: Pool, client: Client, now: int, id: nat)
    requires Valid(c, p) && id in p.rows && p.rows[id].keep
    ensures var o := Loop(c, p, client, now);
            o.ip != Some(p.rows[id].ipAddr) && id in o.pool.rows && o.pool.rows[id] == p.rows[id]
  {
    LoopCases(c, p, client, now);
    LoopFrame(c, p, client, now, id);
  }

  lemma LoopAddsNoOld(c: Config, p: Pool, client: Client, now: int, id: nat)
    requires Valid(c, p) && id !in p.rows && id < p.nextId
    ensures id !in Loop(c, p, client, now).pool.rows
  {
    LoopCases(c, p, client, now);
  }

  /** A call touches no row but the one of the address it returns, and deletes none but an unreserved row of its MAC. */
  lemma AcquireFrame(c: Config, p: Pool, client: Client, now: int, found: seq<nat>, id: nat)
    requires Valid(c, p) && ValidFind(p.rows, client.username, found) && id in p.rows
    ensures var o := Acquire(c, p, client, now, found);
      && (id in o.pool.rows ==> o.pool.rows[id] == p.rows[id]
                                || (!o.fallback && o.ip == Some(p.rows[id].ipAddr)))
      && (id !in o.pool.rows ==> client.uniqueMac && p.rows[id].macAddr == client.macAddr && !p.rows[id].keep)
  {
    LoopFrame(c, p, client, now, id);
    if client.uniqueMac {
      var q := p.(rows := DeleteMac(p.rows, client.macAddr));
      DeleteMacKeepsValid(c, p, client.macAddr);
      if id in q.rows {
        LoopFrame(c, q, client, now, id);
      } else {
        LoopAddsNoOld(c, q, client, now, id);
      }
    }
  }

  // ---------------------------------------------------------------- the allocator itself

  /** The package state of the allocator. Every method runs under ipPoolMux. */
  class Allocator {
    const cfg: Config
    var ipMap: Table
    var nextId: nat
    var ipActive: map<Addr, bool>
    var loopCurIp: Addr
    var loopFarIp: (nat, IpMap)

    ghost function Model(): Pool
      reads this
    {
      Pool(ipMap, nextId, ipActive.Keys, loopCurIp)
    }

    ghost predicate Ready()
      reads this
    {
      Valid(cfg, Model())
    }

    /** initIpPool over the rows the database already holds. */
    constructor (cfg: Config, rows: Table, nextId: nat)
      requires ValidConfig(cfg) && UniqueColumns(rows) && 0 !in rows && 0 < nextId
      requires forall id :: id in rows ==> id < nextId
      ensures Ready() && this.cfg == cfg && Model() == Pool(rows, nextId, {}, cfg.min)
    {
      this.cfg := cfg;
      ipMap, this.nextId, ipActive, loopCurIp := rows, nextId, map[], cfg.min;
      loopFarIp := (0, IpMap(cfg.min, "", false, "", false, 0));
    }

    method FindByIp(ip: Addr) returns (id: nat)
      requires Ready()
      ensures id == match ByIp(ipMap, ip) case Some(i) => i case None => 0
    {
      if i :| i in ipMap && ipMap[i].ipAddr == ip {
        id := i;
      } else {
        id := 0;
      }
    }

    method FindByMac(mac: string) returns (id: nat)
      requires Ready()
      ensures id == match ByMac(ipMap, mac) case Some(i) => i case None => 0
    {
      if i :| i in ipMap && ipMap[i].macAddr == mac {
        id := i;
      } else {
        id := 0;
      }
    }

    /** Set, whose error the callers drop. */
    method Set(id: nat, row: IpMap)
      modifies this`ipMap
      ensures ipMap == Update(old(ipMap), id, row)
    {
      if id in ipMap && Fits(ipMap, id, row) {
        ipMap := ipMap[id := row];
      }
    }

    /** Add, whose error the callers drop. */
    method Add(row: IpMap)
      requires nextId !in ipMap
      modifies this`ipMap, this`nextId
      ensures nextId == old(nextId) + 1
      ensures ipMap == if Fits(old(ipMap), old(nextId), row) then old(ipMap)[old(nextId) := row] else old(ipMap)
    {
      if Fits(ipMap, nextId, row) {
        ipMap := ipMap[nextId := row];
      }
      nextId := nextId + 1;
    }

    /** The remembered oldest login stands for `best`, the zero Id for none. */
    ghost predicate FarIs(best: Option<nat>, now: int)
      reads this
    {
      match best
      case None => loopFarIp.0 == 0 && loopFarIp.1.lastLogin == now
      case Some(id) => id in ipMap && loopFarIp == (id, ipMap[id]) && loopFarIp.1.lastLogin < now
    }

    /** The branch of loopLong for an address without a row. */
    method TakeNew(ip: Addr, client: Client, now: int)
      requires Ready() && ByIp(ipMap, ip).None?
      modifies this`ipMap, this`nextId, this`ipActive
      ensures Model() == Take(old(Model()), ip, client, now).pool
    {
      Add(NewRow(ip, client, now));
      ipActive := ipActive[ip := true];
    }

    /** The branch for an address whose lease has expired. */
    method TakeExpired(id: nat, mi: IpMap, client: Client, now: int)
      requires Ready() && id in ipMap && ipMap[id] == mi && ByIp(ipMap, mi.ipAddr) == Some(id)
      modifies this`ipMap, this`ipActive
      ensures Model() == Take(old(Model()), mi.ipAddr, client, now).pool
    {
      Set(id, mi.(username := client.username, lastLogin := now,
                  macAddr := client.macAddr, uniqueMac := client.uniqueMac));
      ipActive := ipActive[mi.ipAddr := true];
    }

    method LoopLong(start: Addr, end: Addr, client: Client, now: int, ghost best: Option<nat>)
      returns (ip: Option<Addr>)
      requires Ready() && cfg.min <= start && end <= Last(cfg)
      requires FarIs(best, now)
      modifies this
      ensures ip == FirstTakable(cfg, old(Model()), start, end, now)
      ensures match ip
              case Some(i) => Model() == Take(old(Model()), i, client, now).pool
              case None => Model() == old(Model()) && FarIs(Oldest(cfg, old(Model()), start, end, now, best), now)
    {
      ghost var p := Model();
      var i: int := start;
      ghost var seen := best;
      while i <= end
        invariant start <= i && i < ADDRESS_SPACE
        invariant Model() == p && FarIs(seen, now)
        invariant FirstTakable(cfg, p, start, end, now) == FirstTakable(cfg, p, i, end, now)
        invariant Oldest(cfg, p, start, end, now, best) == Oldest(cfg, p, i, end, now, seen)
        decreases end - i
      {
        seen := Older(cfg, p, i, now, seen);
        if i in ipActive {
          i := i + 1;
          continue;
        }
        var id := FindByIp(i);
        if id == 0 {
          TakeNew(i, client, now);
          return Some(i);
        }
        var mi := ipMap[id];
        if mi.keep {
          i := i + 1;
          continue;
        }
        if mi.lastLogin < now - cfg.lease {
          TakeExpired(id, mi, client, now);
          return Some(i);
        }
        if mi.lastLogin < loopFarIp.1.lastLogin {
          loopFarIp := (id, mi);
        }
        i := i + 1;
      }
      ip := None;
    }

    method LoopIp(client: Client, now: int) returns (ip: Option<Addr>)
      requires Ready()
      modifies this
      ensures var o := Loop(cfg, old(Model()), client, now);
              ip == o.ip && Model() == o.pool
    {
      ghost var p := Model();
      loopFarIp := (0, IpMap(cfg.min, "", false, "", false, now));
      ip := LoopLong(loopCurIp, cfg.max, client, now, None);
      if ip.Some? {
        loopCurIp := ip.value;
        return;
      }
      assert Model() == p;
      ghost var ahead := Oldest(cfg, p, p.cur, cfg.max, now, None);
      ip := LoopLong(cfg.min, loopCurIp, client, now, ahead);
      if ip.Some? {
        loopCurIp := ip.value;
        return;
      }
      assert Model() == p;
      loopCurIp := cfg.min;
      ip := TakeFar(client, now, Oldest(cfg, p, cfg.min, p.cur, now, ahead));
    }

    /** The end of loopIp: the oldest login that the two scans remember. */
    method TakeFar(client: Client, now: int, ghost best: Option<nat>) returns (ip: Option<Addr>)
      requires Ready() && FarIs(best, now)
      modifies this`ipMap, this`ipActive
      ensures match best
              case Some(id) =>
                && id in old(ipMap) && ip == Some(old(ipMap)[id].ipAddr)
                && Model() == old(Model()).(active := old(Model()).active + {old(ipMap)[id].ipAddr})
              case None => ip.None? && Model() == old(Model())
    {
      if loopFarIp.0 > 0 {
        var far := loopFarIp.1.ipAddr;
        // The row is built without an Id, so this write finds nothing to update.
        Set(0, NewRow(far, client, now));
        ipActive := ipActive[far := true];
        return Some(far);
      }
      ip := None;
    }

    /** `found` is the answer of the query for the user's rows. */
    method AcquireIp(client: Client, now: int, found: seq<nat>) returns (ip: Option<Addr>)
      requires Ready() && ValidFind(ipMap, client.username, found)
      modifies this
      ensures var o := Acquire(cfg, old(Model()), client, now, found);
              ip == o.ip && Model() == o.pool
      ensures Ready()
    {
      AcquireIsSafe(cfg, Model(), client, now, found);
      if client.uniqueMac {
        var id := FindByMac(client.macAddr);
        if id == 0 {
          ip := LoopIp(client, now);
          return;
        }
        var mi := ipMap[id];
        if mi.ipAddr !in ipActive && InPool(cfg, mi.ipAddr) {
          Set(id, mi.(username := client.username, lastLogin := now, uniqueMac := client.uniqueMac));
          ipActive := ipActive[mi.ipAddr := true];
          return Some(mi.ipAddr);
        }
        if mi.keep {
          return None;
        }
        DeleteMacKeepsValid(cfg, Model(), client.macAddr);
        ipMap := DeleteMac(ipMap, client.macAddr);
        ip := LoopIp(client, now);
        return;
      }
      var k := 0;
      while k < |found|
        invariant 0 <= k <= |found|
        invariant Model() == old(Model())
        invariant FirstReusable(cfg, Model(), found) == FirstReusable(cfg, Model(), found[k..])
      {
        var mi := ipMap[found[k]];
        if mi.ipAddr in ipActive || mi.keep || mi.uniqueMac {
          k := k + 1;
          continue;
        }
        if InPool(cfg, mi.ipAddr) {
          Set(found[k], mi.(username := client.username, lastLogin := now,
                            macAddr := client.macAddr, uniqueMac := client.uniqueMac));
          ipActive := ipActive[mi.ipAddr := true];
          return Some(mi.ipAddr);
        }
        k := k + 1;
      }
      ip := LoopIp(client, now);
    }

    method ReleaseIp(ip: Addr, now: int)
      requires Ready()
      modifies this`ipActive, this`ipMap
      ensures Model() == Release(old(Model()), ip, now)
      ensures Ready()
    {
      ReleaseIsSafe(cfg, Model(), ip, now);
      ipActive := ipActive - {ip};
      var id := FindByIp(ip);
      if id != 0 {
        Set(id, ipMap[id].(lastLogin := now));
      }
    }
  }
}
