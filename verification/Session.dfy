/** Sessions, connections and DTLS connections as the objects the server updates in place.

    The interleavings are the subject of Lifecycle; here one call runs at a time and its effect on every object,
    on the allocator and on the slot counters is stated. */
module Session {
  import opened Wrappers
  import opened IpPool
  import opened IpPoolCalls
  import opened LimitClient

  /** A DTLS side channel of a connection. `isActive` is -1 until a DTLS handshake made it 1. */
  class DtlsSession {
    var isActive: int
    var closedOnce: bool
    var closeChanOpen: bool

    /** An active side channel has an open channel and an unused closeOnce, so closing it cannot panic. */
    ghost predicate Valid()
      reads this
    {
      isActive > 0 ==> !closedOnce && closeChanOpen
    }

    constructor (isActive: int, closeChanOpen: bool)
      requires isActive > 0 ==> closeChanOpen
      ensures Valid() && this.isActive == isActive && !closedOnce && this.closeChanOpen == closeChanOpen
    {
      this.isActive, this.closedOnce, this.closeChanOpen := isActive, false, closeChanOpen;
    }

    /** Its callers obtained it from NewDtlsConn, so its channel was made; only closeOnce closes it. */
    method Close()
      requires Valid() && (closeChanOpen || closedOnce)
      modifies this
      ensures Valid() && closedOnce
      ensures if old(closedOnce) then unchanged(this) else isActive == -1 && !closeChanOpen
    {
      if !closedOnce {
        closedOnce := true;
        isActive := -1;
        closeChanOpen := false;
      }
    }
  }

  class ConnSession {
    const sess: Session
    const ipAddr: Addr
    const username: string
    var closedOnce: bool
    var closeChanOpen: bool
    var dSess: DtlsSession

    ghost predicate Valid()
      reads this, dSess
    {
      dSess.Valid() && (!closedOnce ==> closeChanOpen)
    }

    constructor (sess: Session, ipAddr: Addr, username: string)
      ensures Valid() && this.sess == sess && this.ipAddr == ipAddr && this.username == username
      ensures !closedOnce && fresh(dSess) && dSess.isActive == -1
    {
      this.sess, this.ipAddr, this.username := sess, ipAddr, username;
      closedOnce, closeChanOpen := false, true;
      dSess := new DtlsSession(-1, false);
    }

    method GetDtlsSession() returns (ds: DtlsSession?)
      ensures ds == if dSess.isActive > 0 then dSess else null
    {
      ds := if dSess.isActive > 0 then dSess else null;
    }

    /** At most one DTLS connection is active: a second one is refused until the first is closed. */
    method NewDtlsConn() returns (ds: DtlsSession?)
      requires Valid()
      modifies this`dSess
      ensures Valid()
      ensures ds == null <==> old(dSess.isActive) > 0
      ensures ds == null ==> dSess == old(dSess)
      ensures ds != null ==> fresh(ds) && dSess == ds && ds.isActive == 1
    {
      if dSess.isActive > 0 {
        return null;
      }
      ds := new DtlsSession(1, true);
      dSess := ds;
    }
  }

  class Session {
    const token: string
    const dtlsSid: string
    var client: Client
    var isActive: bool
    var lastLogin: int
    var cSess: ConnSession?

    /** Active exactly with a connection, which is this session's and unclosed. */
    ghost predicate Valid()
      reads this, cSess, if cSess != null then {cSess.dSess} else {}
    {
      && (isActive <==> cSess != null)
      && (cSess != null ==> cSess.sess == this && !cSess.closedOnce && cSess.Valid())
    }

    constructor (token: string, dtlsSid: string, client: Client, now: int)
      ensures this.token == token && this.dtlsSid == dtlsSid && this.client == client
      ensures Valid() && !isActive && lastLogin == now
    {
      this.token, this.dtlsSid, this.client := token, dtlsSid, client;
      isActive, cSess, lastLogin := false, null, now;
    }
  }

  // ---------------------------------------------------------------- one call on values

  /** The allocator and the counters. */
  datatype Shared = Shared(pool: Pool, counters: Counters)

  /** What Close does to them. */
  ghost function Returned(l: Limits, r: Shared, ip: Addr, username: string, now: int): Shared {
    Shared(Release(r.pool, ip, now), Limited(l, r.counters, username, true).0)
  }

  /** What NewConn does to them, and the address of the connection it returns. */
  ghost function Taken(c: Config, l: Limits, r: Shared, client: Client, now: int, found: seq<nat>, groupKnown: bool)
    : (Shared, Option<Addr>)
    requires IpPool.Valid(c, r.pool) && ValidFind(r.pool.rows, client.username, found)
  {
    var (counters, ok) := Limited(l, r.counters, client.username, false);
    if !ok then (Shared(r.pool, counters), None) else
    var o := Acquire(c, r.pool, client, now, found);
    if o.ip.None? then (Shared(o.pool, Limited(l, counters, client.username, true).0), None)
    else if !groupKnown then (Shared(o.pool, counters), None)
    else (Shared(o.pool, counters), o.ip)
  }

  lemma ReleaseKeepsFind(c: Config, p: Pool, ip: Addr, now: int, username: string, found: seq<nat>)
    requires IpPool.Valid(c, p) && ValidFind(p.rows, username, found)
    ensures ValidFind(Release(p, ip, now).rows, username, found)
  {}

  /** Close undoes NewConn: the active set and every counter are back to what they were. When NewConn returns nothing
      they are unchanged too, except exactly when the group lookup failed after an address had been taken. */
  lemma CloseUndoesNewConn(c: Config, l: Limits, r: Shared, client: Client, now: int, found: seq<nat>, known: bool,
                           later: int, key: string)
    requires IpPool.Valid(c, r.pool) && ValidFind(r.pool.rows, client.username, found)
    ensures var (q, ip) := Taken(c, l, r, client, now, found, known);
      && (ip.Some? ==>
            && var z := Returned(l, q, ip.value, client.username, later);
               z.pool.active == r.pool.active && Count(z.counters, key) == Count(r.counters, key))
      && (ip.None? ==>
            (q.pool.active == r.pool.active && (forall k :: Count(q.counters, k) == Count(r.counters, k))
             <==> !(!known && Limited(l, r.counters, client.username, false).1
                    && Acquire(c, r.pool, client, now, found).ip.Some?)))
  {
    AcquireIsSafe(c, r.pool, client, now, found);
    var (q, ip) := Taken(c, l, r, client, now, found, known);
    if ip.Some? {
      ReleaseIsSafe(c, q.pool, ip.value, later);
    }
  }

  /** From the end of a connection on, anybody can take its address, if it is not reserved, exactly when the lease is
      over. */
  lemma ClosedAddressIsFreeExactlyWhen(c: Config, l: Limits, r: Shared, ip: Addr, username: string, now: int,
                                       later: int)
    requires IpPool.Valid(c, r.pool) && ByIp(r.pool.rows, ip).Some? && !KeptAt(r.pool.rows, ip)
    ensures Takable(c, Returned(l, r, ip, username, now).pool, ip, later) <==> now + c.lease < later
  {
    ReleasedIsFreeExactlyWhen(c, r.pool, ip, now, later);
  }

  // ---------------------------------------------------------------- the package state

  class Server {
    const pool: Allocator
    const limiter: Limiter
    var sessions: map<string, Session>
    var dtlsIds: map<string, string>

    ghost function Resources(): Shared
      reads this, pool, limiter
    {
      Shared(pool.Model(), limiter.limitClient)
    }

    /** dtlsIds is the inverse of sessions. */
    ghost predicate Inverse()
      reads this
    {
      && (forall t :: t in sessions ==>
            sessions[t].token == t && sessions[t].dtlsSid in dtlsIds && dtlsIds[sessions[t].dtlsSid] == t)
      && (forall d :: d in dtlsIds ==> dtlsIds[d] in sessions && sessions[dtlsIds[d]].dtlsSid == d)
    }

    constructor (pool: Allocator, limiter: Limiter)
      ensures this.pool == pool && this.limiter == limiter && sessions == map[] && Inverse()
    {
      this.pool, this.limiter, sessions, dtlsIds := pool, limiter, map[], map[];
    }

    /** `token` and `dtlsSid` are the random hexadecimal strings drawn for the session. */
    method NewSession(token: string, dtlsSid: string, client: Client, now: int) returns (s: Session)
      requires Inverse() && token !in sessions && dtlsSid !in dtlsIds
      modifies this
      ensures Inverse() && fresh(s) && s.Valid() && !s.isActive && s.client == client
      ensures sessions == old(sessions)[token := s] && dtlsIds == old(dtlsIds)[dtlsSid := token]
    {
      s := new Session(token, dtlsSid, client, now);
      sessions := sessions[token := s];
      dtlsIds := dtlsIds[dtlsSid := token];
    }

    /** ConnSession.Close. A connection that is already closed is left alone, and so is everything else. */
    method Close(cs: ConnSession, now: int)
      requires cs.Valid() && pool.Ready()
      modifies cs, cs.dSess, cs.sess, pool, limiter
      ensures cs.closedOnce && cs.Valid() && pool.Ready()
      ensures if old(cs.closedOnce)
              then unchanged(cs) && unchanged(cs.sess) && unchanged(cs.dSess) && unchanged(pool) && unchanged(limiter)
              else && !cs.closeChanOpen && !cs.sess.isActive && cs.sess.cSess == null && cs.sess.lastLogin == now
                   && cs.sess.client == old(cs.sess.client) && cs.dSess == old(cs.dSess) && cs.dSess.isActive <= 0
                   && Resources() == Returned(limiter.limits, old(Resources()), cs.ipAddr, cs.username, now)
    {
      if cs.closedOnce {
        return;
      }
      cs.closedOnce := true;
      cs.closeChanOpen := false;
      cs.sess.isActive := false;
      cs.sess.lastLogin := now;
      cs.sess.cSess := null;
      var ds := cs.GetDtlsSession();
      if ds != null {
        ds.Close();
      }
      pool.ReleaseIp(cs.ipAddr, now);
      var _ := limiter.LimitClient(cs.username, true);
    }

    /** Session.NewConn. `found` answers the query for the user's rows and `groupKnown` the lookup of the group. */
    method NewConn(s: Session, now: int, found: seq<nat>, groupKnown: bool) returns (c: ConnSession?)
      requires s.Valid() && pool.Ready() && ValidFind(pool.ipMap, s.client.username, found)
      modifies s, s.cSess, if s.cSess != null then {s.cSess.dSess} else {}, pool, limiter
      ensures s.Valid() && pool.Ready() && s.client == old(s.client)
      ensures old(s.cSess) != null ==> old(s.cSess).closedOnce
      ensures var (r, ip) := old(AfterNewConn(s, now, found, groupKnown));
        && Resources() == r
        && (ip.None? ==> c == null && !s.isActive)
        && (ip.Some? ==>
              c != null && fresh(c) && s.cSess == c && c.ipAddr == ip.value && c.username == s.client.username)
    {
      ghost var former := s.cSess;
      if s.isActive {
        ReleaseKeepsFind(pool.cfg, pool.Model(), s.cSess.ipAddr, now, s.client.username, found);
        Close(s.cSess, now);
      }
      var client := s.client;
      var ok := limiter.LimitClient(client.username, false);
      if !ok {
        return null;
      }
      var ip := pool.AcquireIp(client, now, found);
      if ip.None? {
        var _ := limiter.LimitClient(client.username, true);
        return null;
      }
      if !groupKnown {
        return null;
      }
      c := new ConnSession(s, ip.value, client.username);
      s.isActive := true;
      s.cSess := c;
    }

    /** The resources once NewConn has closed the session's former connection. */
    ghost function Before(s: Session, now: int): Shared
      reads this, pool, limiter, s, s.cSess
    {
      if s.cSess == null then Resources()
      else Returned(limiter.limits, Resources(), s.cSess.ipAddr, s.cSess.username, now)
    }

    ghost function AfterNewConn(s: Session, now: int, found: seq<nat>, groupKnown: bool): (Shared, Option<Addr>)
      requires pool.Ready() && ValidFind(pool.ipMap, s.client.username, found)
      reads this, pool, limiter, s, s.cSess
    {
      var r := Before(s, now);
      if s.cSess != null then
        ReleaseKeepsFind(pool.cfg, pool.Model(), s.cSess.ipAddr, now, s.client.username, found);
        ReleaseIsSafe(pool.cfg, pool.Model(), s.cSess.ipAddr, now);
        Taken(pool.cfg, limiter.limits, r, s.client, now, found, groupKnown)
      else Taken(pool.cfg, limiter.limits, r, s.client, now, found, groupKnown)
    }

    /** CloseSess: the session leaves both tables and its connection, if any, is closed. */
    method CloseSess(token: string, now: int)
      requires Inverse() && pool.Ready() && forall t :: t in sessions ==> sessions[t].Valid()
      modifies this, pool, limiter, sessions.Values, set s | s in sessions.Values && s.cSess != null :: s.cSess,
               set s | s in sessions.Values && s.cSess != null :: s.cSess.dSess
      ensures Inverse() && pool.Ready()
      ensures sessions == old(sessions) - {token}
      ensures token in old(sessions) ==>
        && dtlsIds == old(dtlsIds) - {old(sessions)[token].dtlsSid}
        && var s := old(sessions)[token];
           s.Valid() && !s.isActive && Resources() == old(Before(sessions[token], now))
      ensures token !in old(sessions) ==> dtlsIds == old(dtlsIds) && Resources() == old(Resources())
    {
      if token !in sessions {
        return;
      }
      var sess := sessions[token];
      sessions := sessions - {token};
      dtlsIds := dtlsIds - {sess.dtlsSid};
      if sess.cSess != null {
        Close(sess.cSess, now);
      }
    }

    /** CloseCSess: the connection is closed, the session stays in both tables. */
    method CloseCSess(token: string, now: int)
      requires Inverse() && pool.Ready() && forall t :: t in sessions ==> sessions[t].Valid()
      modifies pool, limiter, sessions.Values, set s | s in sessions.Values && s.cSess != null :: s.cSess,
               set s | s in sessions.Values && s.cSess != null :: s.cSess.dSess
      ensures Inverse() && pool.Ready()
      ensures token in sessions ==>
        && sessions[token].Valid() && !sessions[token].isActive && Resources() == old(Before(sessions[token], now))
      ensures token !in sessions ==> Resources() == old(Resources())
    {
      if token !in sessions {
        return;
      }
      var sess := sessions[token];
      if sess.cSess != null {
        Close(sess.cSess, now);
      }
    }

    /** GetOnlineSess. `matched` are the tokens whose session the search text matches; the sessions come in no
        particular order. None is the panic on the side channel of a connection that is not there. */
    method GetOnlineSess(matched: set<string>, sleepers: bool) returns (listed: Option<set<string>>)
      requires forall t :: t in sessions ==> sessions[t].Valid()
      ensures listed.None? <==> sleepers && exists t :: t in sessions && t in matched && sessions[t].cSess == null
      ensures listed.Some? ==>
                listed.value == set t | t in sessions && t in matched && (sleepers || sessions[t].isActive)
    {
      var todo, data := sessions.Keys, {};
      while todo != {}
        invariant todo <= sessions.Keys
        invariant data == set t | t in sessions && t !in todo && t in matched && (sleepers || sessions[t].isActive)
        invariant sleepers ==> forall t :: t in sessions && t !in todo && t in matched ==> sessions[t].cSess != null
        decreases |todo|
      {
        var t :| t in todo;
        todo := todo - {t};
        var v := sessions[t];
        if t !in matched {
          continue;
        }
        if sleepers || v.isActive {
          if v.cSess == null {
            return None;
          }
          data := data + {t};
        }
      }
      return Some(data);
    }

    /** Dtls2Sess finds exactly the registered session with that DTLS id. */
    method Dtls2Sess(did: string) returns (s: Session?)
      requires Inverse()
      ensures s != null <==> exists t :: t in sessions && sessions[t].dtlsSid == did
      ensures s != null ==> s in sessions.Values && s.dtlsSid == did
    {
      if did in dtlsIds && dtlsIds[did] in sessions {
        s := sessions[dtlsIds[did]];
      } else {
        s := null;
      }
    }

    method Dtls2CSess(did: string) returns (c: ConnSession?)
      requires Inverse() && forall t :: t in sessions ==> sessions[t].Valid()
      ensures c != null <==> exists t :: t in sessions && sessions[t].dtlsSid == did && sessions[t].isActive
      ensures c != null ==> !c.closedOnce && c.sess in sessions.Values && c.sess.dtlsSid == did && c.sess.cSess == c
    {
      var s := Dtls2Sess(did);
      if s == null {
        return null;
      }
      c := s.cSess;
    }
  }
}
