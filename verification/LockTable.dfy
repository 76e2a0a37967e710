/** The lock manager as the server runs it: heap-allocated states shared through three maps, changed in place by checks,
    updates and the sweeper. Every method runs under the manager's mutex. */
module LockTable {
  import opened Wrappers
  import opened LockManager

  /** Where a state is kept: 0 the addresses, 1 the users, 2 the user-address pairs. */
  datatype Place = Place(space: nat, user: string, key: string)

  class LockState {
    ghost const place: Place
    var locked: bool
    var failureCount: int
    var lockTime: Option<int>
    var lastAttempt: Option<int>

    ghost function Val(): Lock
      reads this
    {
      Lock(locked, failureCount, lockTime, lastAttempt)
    }

    constructor (ghost place: Place)
      ensures Val() == FRESH && this.place == place
    {
      this.place := place;
      locked, failureCount, lockTime, lastAttempt := false, 0, None, None;
    }

    method Unlock()
      modifies this
      ensures Val() == Unlocked(old(Val()))
    {
      failureCount := 0;
      lockTime := None;
      locked := false;
    }

    method UpdateLockState(now: int, success: bool, r: Rule)
      modifies this
      ensures Val() == Updated(old(Val()), now, success, r)
    {
      if success {
        Unlock();
      } else {
        failureCount := failureCount + 1;
        if failureCount >= r.max {
          lockTime := Some(now + r.lock);
          locked := true;
        }
      }
      lastAttempt := Some(now);
    }

    method CheckLockState(now: int, reset: int) returns (refused: bool)
      modifies this
      ensures (Val(), refused) == Checked(old(Val()), now, reset)
    {
      if lastAttempt.None? {
        return false;
      }
      if lockTime.Some? && now > lockTime.value {
        Unlock();
        return false;
      }
      if now - lastAttempt.value > reset {
        failureCount := 0;
        return false;
      }
      return locked;
    }
  }

  type States = map<string, LockState>

  /** The states of a map have the values `v`, and each is where its place says, so no two keys share one. */
  ghost predicate Keeps(m: States, v: Space, space: nat, user: string)
    reads m.Values
  {
    m.Keys == v.Keys && forall k :: k in m ==> m[k].place == Place(space, user, k) && m[k].Val() == v[k]
  }

  /** The update every key space shares: a missing key gets a fresh state first. */
  method UpdateIn(m: States, ghost v: Space, key: string, now: int, success: bool, r: Rule,
                  ghost space: nat, ghost user: string) returns (n: States)
    requires Keeps(m, v, space, user)
    modifies m.Values
    ensures Keeps(n, UpdateEntry(v, key, now, success, r), space, user)
    ensures forall k :: k in n ==> n[k] in m.Values || fresh(n[k])
  {
    n := m;
    if key !in m {
      var state := new LockState(Place(space, user, key));
      n := m[key := state];
    }
    n[key].UpdateLockState(now, success, r);
  }

  method CheckIn(m: States, ghost v: Space, key: string, now: int, reset: int, ghost space: nat, ghost user: string)
    returns (refused: bool)
    requires Keeps(m, v, space, user)
    modifies m.Values
    ensures Keeps(m, CheckEntry(v, key, now, reset).0, space, user) && refused == CheckEntry(v, key, now, reset).1
  {
    if key !in m {
      return false;
    }
    refused := m[key].CheckLockState(now, reset);
  }

  /** One turn of the sweeper's loop. */
  method SweepKey(m: States, key: string, now: int, reset: int, expiration: int) returns (n: States)
    requires key in m
    modifies m[key]
    ensures if Survives(old(m[key].Val()), now, reset, expiration) then n == m && m[key].Val() == old(m[key].Val())
            else n == m - {key}
  {
    n := m;
    var state := m[key];
    if Checked(state.Val(), now, reset).1 {
      RefusalLeavesTheLock(state.Val(), now, reset);
    }
    var refused := state.CheckLockState(now, reset);
    if !refused || now - state.lastAttempt.value > expiration {
      n := m - {key};
    }
  }

  /** One deletion loop of the sweeper over a map, whose keys come in no particular order. */
  method SweepIn(m: States, ghost v: Space, now: int, reset: int, expiration: int, ghost space: nat, ghost user: string)
    returns (n: States)
    requires Keeps(m, v, space, user)
    modifies m.Values
    ensures Keeps(n, SweptSpace(v, now, reset, expiration), space, user)
    ensures forall k :: k in n ==> k in m && n[k] == m[k]
  {
    n := m;
    var todo := m.Keys;
    while todo != {}
      invariant todo <= n.Keys && forall k :: k in n ==> k in m && n[k] == m[k]
      invariant forall k :: k in n ==> m[k].Val() == v[k]
      invariant forall k :: k in m && k !in todo ==> (k in n <==> Survives(v[k], now, reset, expiration))
      decreases |todo|
    {
      var key :| key in todo;
      todo := todo - {key};
      n := SweepKey(n, key, now, reset, expiration);
    }
  }

  // ---------------------------------------------------------------- states per user and address

  type Pairs = map<string, States>

  ghost function PairStates(p: Pairs): set<LockState> {
    set u, k | u in p && k in p[u] :: p[u][k]
  }

  ghost predicate KeepsPairs(p: Pairs, v: map<string, Space>)
    reads PairStates(p)
  {
    p.Keys == v.Keys && forall u :: u in p ==> Keeps(p[u], v[u], 2, u)
  }

  method UpdatePair(p: Pairs, ghost v: map<string, Space>, user: string, ip: string, now: int, success: bool, r: Rule)
    returns (q: Pairs)
    requires KeepsPairs(p, v)
    modifies PairStates(p)
    ensures KeepsPairs(q, v[user := UpdateEntry(if user in v then v[user] else map[], ip, now, success, r)])
    ensures forall s :: s in PairStates(q) ==> s in PairStates(p) || fresh(s)
  {
    var inner: States := if user in p then p[user] else map[];
    var updated := UpdateIn(inner, if user in v then v[user] else map[], ip, now, success, r, 2, user);
    q := p[user := updated];
  }

  method CheckPairIn(p: Pairs, ghost v: map<string, Space>, user: string, ip: string, now: int, reset: int)
    returns (refused: bool)
    requires KeepsPairs(p, v)
    modifies PairStates(p)
    ensures KeepsPairs(p, CheckPair(v, user, ip, now, reset).0) && refused == CheckPair(v, user, ip, now, reset).1
  {
    if user !in p || ip !in p[user] {
      return false;
    }
    refused := CheckIn(p[user], v[user], ip, now, reset, 2, user);
  }

  /** What the sweeper leaves of one user: the inner map goes as soon as its last address does. */
  method SweepUser(p: Pairs, ghost v: Space, user: string, now: int, reset: int, expiration: int)
    returns (left: States, stays: bool)
    requires user in p && Keeps(p[user], v, 2, user)
    modifies p[user].Values
    ensures Keeps(left, SweptSpace(v, now, reset, expiration), 2, user)
    ensures forall k :: k in left ==> k in p[user] && left[k] == p[user][k]
    ensures stays <==> Stays(v, now, reset, expiration)
  {
    var inner := p[user];
    left := SweepIn(inner, v, now, reset, expiration, 2, user);
    stays := inner == map[] || left != map[];
  }

  /** Every state of `q` is a state of `p` under the same keys. */
  ghost predicate PartOf(q: Pairs, p: Pairs) {
    forall u :: u in q ==> u in p && forall k :: k in q[u] ==> k in p[u] && q[u][k] == p[u][k]
  }

  /** The sweeper's last loop has done every user outside `todo`. */
  ghost predicate SweptBut(p: Pairs, q: Pairs, todo: set<string>, v: map<string, Space>, w: map<string, Space>)
    reads PairStates(p), PairStates(q)
  {
    && (forall u :: u in q <==> u in w || u in todo)
    && (forall u :: u in todo ==> u in p && u in v && q[u] == p[u] && Keeps(p[u], v[u], 2, u))
    && (forall u :: u in q && u !in todo ==> Keeps(q[u], w[u], 2, u))
  }

  lemma SweptOneMore(p: Pairs, q: Pairs, todo: set<string>, user: string, left: States,
                     v: map<string, Space>, w: map<string, Space>)
    requires PartOf(q, p) && user in todo && user in p
    requires forall u :: u in q <==> u in w || u in todo
    requires forall u :: u in todo && u != user ==> u in p && u in v && q[u] == p[u] && Keeps(p[u], v[u], 2, u)
    requires forall u :: u in q && u !in todo ==> Keeps(q[u], w[u], 2, u)
    requires forall k :: k in left ==> k in p[user] && left[k] == p[user][k]
    requires user in w ==> Keeps(left, w[user], 2, user)
    ensures var r := if user in w then q[user := left] else q - {user};
            PartOf(r, p) && SweptBut(p, r, todo - {user}, v, w)
  {}

  /** The states of different users are different. */
  lemma UsersAreDisjoint(p: Pairs, q: Pairs, todo: set<string>, user: string, v: map<string, Space>,
                         w: map<string, Space>)
    requires SweptBut(p, q, todo, v, w) && user in todo
    ensures forall u :: u in q && u != user ==> q[u].Values !! p[user].Values
  {}

  method SweepNext(p: Pairs, q: Pairs, ghost todo: set<string>, user: string, now: int, reset: int, expiration: int,
                   ghost v: map<string, Space>, ghost w: map<string, Space>) returns (r: Pairs)
    requires PartOf(q, p) && SweptBut(p, q, todo, v, w) && user in todo && w == SweptPairs(v, now, reset, expiration)
    modifies PairStates(p)
    ensures PartOf(r, p) && SweptBut(p, r, todo - {user}, v, w)
  {
    UsersAreDisjoint(p, q, todo, user, v, w);
    var left, stays := SweepUser(p, v[user], user, now, reset, expiration);
    assert forall u :: u in todo && u != user ==> Keeps(p[u], v[u], 2, u);
    assert forall u :: u in q && u !in todo ==> Keeps(q[u], w[u], 2, u);
    SweptOneMore(p, q, todo, user, left, v, w);
    r := if stays then q[user := left] else q - {user};
  }

  lemma SweptNone(p: Pairs, v: map<string, Space>, w: map<string, Space>)
    requires KeepsPairs(p, v) && w.Keys <= v.Keys
    ensures PartOf(p, p) && SweptBut(p, p, p.Keys, v, w)
  {}

  lemma SweptAll(p: Pairs, q: Pairs, v: map<string, Space>, w: map<string, Space>)
    requires SweptBut(p, q, {}, v, w)
    ensures KeepsPairs(q, w)
  {}

  method SweepPairs(p: Pairs, ghost v: map<string, Space>, now: int, reset: int, expiration: int) returns (q: Pairs)
    requires KeepsPairs(p, v)
    modifies PairStates(p)
    ensures KeepsPairs(q, SweptPairs(v, now, reset, expiration)) && PartOf(q, p)
  {
    ghost var w := SweptPairs(v, now, reset, expiration);
    q := p;
    var todo := p.Keys;
    SweptNone(p, v, w);
    while todo != {}
      invariant PartOf(q, p) && SweptBut(p, q, todo, v, w)
      decreases |todo|
    {
      var user :| user in todo;
      q := SweepNext(p, q, todo, user, now, reset, expiration, v, w);
      todo := todo - {user};
    }
    SweptAll(p, q, v, w);
  }

  // ---------------------------------------------------------------- whole spaces

  /** A flat key space whose states are among `repr`. */
  ghost predicate SpaceIn(m: States, v: Space, space: nat, repr: set<LockState>)
    reads repr
  {
    (forall k :: k in m ==> m[k] in repr) && Keeps(m, v, space, "")
  }

  ghost predicate PairsIn(p: Pairs, v: map<string, Space>, repr: set<LockState>)
    reads repr
  {
    PairStates(p) <= repr && KeepsPairs(p, v)
  }

  method UpdateSpace(m: States, ghost v: Space, key: string, now: int, success: bool, r: Rule, ghost space: nat,
                     ghost repr: set<LockState>) returns (n: States, ghost grown: set<LockState>)
    requires SpaceIn(m, v, space, repr)
    modifies repr
    ensures SpaceIn(n, UpdateEntry(v, key, now, success, r), space, grown) && repr <= grown && fresh(grown - repr)
  {
    n := UpdateIn(m, v, key, now, success, r, space, "");
    grown := repr + n.Values;
  }

  method CheckSpace(m: States, ghost v: Space, key: string, now: int, reset: int, ghost space: nat,
                    ghost repr: set<LockState>) returns (refused: bool)
    requires SpaceIn(m, v, space, repr)
    modifies repr
    ensures SpaceIn(m, CheckEntry(v, key, now, reset).0, space, repr) && refused == CheckEntry(v, key, now, reset).1
  {
    refused := CheckIn(m, v, key, now, reset, space, "");
  }

  method SweepSpace(m: States, ghost v: Space, now: int, reset: int, expiration: int, ghost space: nat,
                    ghost repr: set<LockState>) returns (n: States)
    requires SpaceIn(m, v, space, repr)
    modifies repr
    ensures SpaceIn(n, SweptSpace(v, now, reset, expiration), space, repr)
  {
    n := SweepIn(m, v, now, reset, expiration, space, "");
  }

  method UpdatePairs(p: Pairs, ghost v: map<string, Space>, user: string, ip: string, now: int, success: bool, r: Rule,
                     ghost repr: set<LockState>) returns (q: Pairs, ghost grown: set<LockState>)
    requires PairsIn(p, v, repr)
    modifies repr
    ensures PairsIn(q, v[user := UpdateEntry(if user in v then v[user] else map[], ip, now, success, r)], grown)
    ensures repr <= grown && fresh(grown - repr)
  {
    q := UpdatePair(p, v, user, ip, now, success, r);
    grown := repr + PairStates(q);
  }

  method CheckPairs(p: Pairs, ghost v: map<string, Space>, user: string, ip: string, now: int, reset: int,
                    ghost repr: set<LockState>) returns (refused: bool)
    requires PairsIn(p, v, repr)
    modifies repr
    ensures PairsIn(p, CheckPair(v, user, ip, now, reset).0, repr) && refused == CheckPair(v, user, ip, now, reset).1
  {
    refused := CheckPairIn(p, v, user, ip, now, reset);
  }

  method SweepAllPairs(p: Pairs, ghost v: map<string, Space>, now: int, reset: int, expiration: int,
                       ghost repr: set<LockState>) returns (q: Pairs)
    requires PairsIn(p, v, repr)
    modifies repr
    ensures PairsIn(q, SweptPairs(v, now, reset, expiration), repr)
  {
    q := SweepPairs(p, v, now, reset, expiration);
  }

  // ---------------------------------------------------------------- the three spaces together

  /** The values of the three spaces and the states that hold them. */
  datatype Shadow = Shadow(model: Locks, ip: set<LockState>, user: set<LockState>, pair: set<LockState>)

  ghost predicate Good(ips: States, users: States, pairs: Pairs, s: Shadow)
    reads s.ip, s.user, s.pair
  {
    && s.ip !! s.user && s.ip !! s.pair && s.user !! s.pair
    && SpaceIn(ips, s.model.ip, 0, s.ip) && SpaceIn(users, s.model.user, 1, s.user)
    && PairsIn(pairs, s.model.ipUser, s.pair)
  }

  method UpdateIps(ips: States, ghost users: States, ghost pairs: Pairs, ghost s: Shadow,
                   ip: string, now: int, success: bool, r: Rule) returns (n: States, ghost t: Shadow)
    requires Good(ips, users, pairs, s)
    modifies s.ip
    ensures Good(n, users, pairs, t) && fresh(t.ip - s.ip)
    ensures t == s.(model := s.model.(ip := UpdateEntry(s.model.ip, ip, now, success, r)), ip := t.ip)
  {
    ghost var grown;
    n, grown := UpdateSpace(ips, s.model.ip, ip, now, success, r, 0, s.ip);
    t := s.(model := s.model.(ip := UpdateEntry(s.model.ip, ip, now, success, r)), ip := grown);
  }

  method UpdateUsers(ghost ips: States, users: States, ghost pairs: Pairs, ghost s: Shadow,
                     user: string, now: int, success: bool, r: Rule) returns (n: States, ghost t: Shadow)
    requires Good(ips, users, pairs, s)
    modifies s.user
    ensures Good(ips, n, pairs, t) && fresh(t.user - s.user)
    ensures t == s.(model := s.model.(user := UpdateEntry(s.model.user, user, now, success, r)), user := t.user)
  {
    ghost var grown;
    n, grown := UpdateSpace(users, s.model.user, user, now, success, r, 1, s.user);
    t := s.(model := s.model.(user := UpdateEntry(s.model.user, user, now, success, r)), user := grown);
  }

  method UpdateUserIps(ghost ips: States, ghost users: States, pairs: Pairs, ghost s: Shadow,
                       user: string, ip: string, now: int, success: bool, r: Rule) returns (n: Pairs, ghost t: Shadow)
    requires Good(ips, users, pairs, s)
    modifies s.pair
    ensures Good(ips, users, n, t) && fresh(t.pair - s.pair)
    ensures t == s.(model := UpdatedPair(s.model, user, ip, now, success, r), pair := t.pair)
  {
    ghost var grown;
    n, grown := UpdatePairs(pairs, s.model.ipUser, user, ip, now, success, r, s.pair);
    t := s.(model := UpdatedPair(s.model, user, ip, now, success, r), pair := grown);
  }

  method CleanIps(ips: States, ghost users: States, ghost pairs: Pairs, ghost s: Shadow, now: int, reset: int,
                  expiration: int)
    returns (n: States, ghost t: Shadow)
    requires Good(ips, users, pairs, s)
    modifies s.ip
    ensures Good(n, users, pairs, t) && t == s.(model := s.model.(ip := SweptSpace(s.model.ip, now, reset, expiration)))
  {
    n := SweepSpace(ips, s.model.ip, now, reset, expiration, 0, s.ip);
    t := s.(model := s.model.(ip := SweptSpace(s.model.ip, now, reset, expiration)));
  }

  method CleanUsers(ghost ips: States, users: States, ghost pairs: Pairs, ghost s: Shadow, now: int, reset: int,
                    expiration: int) returns (n: States, ghost t: Shadow)
    requires Good(ips, users, pairs, s)
    modifies s.user
    ensures Good(ips, n, pairs, t)
    ensures t == s.(model := s.model.(user := SweptSpace(s.model.user, now, reset, expiration)))
  {
    n := SweepSpace(users, s.model.user, now, reset, expiration, 1, s.user);
    t := s.(model := s.model.(user := SweptSpace(s.model.user, now, reset, expiration)));
  }

  method CleanUserIps(ghost ips: States, ghost users: States, pairs: Pairs, ghost s: Shadow, now: int, reset: int,
                      expiration: int) returns (n: Pairs, ghost t: Shadow)
    requires Good(ips, users, pairs, s)
    modifies s.pair
    ensures Good(ips, users, n, t)
    ensures t == s.(model := s.model.(ipUser := SweptPairs(s.model.ipUser, now, reset, expiration)))
  {
    n := SweepAllPairs(pairs, s.model.ipUser, now, reset, expiration, s.pair);
    t := s.(model := s.model.(ipUser := SweptPairs(s.model.ipUser, now, reset, expiration)));
  }

  // ---------------------------------------------------------------- the manager

  class Manager {
    const cfg: Config
    var ipLocks: States
    var userLocks: States
    var ipUserLocks: Pairs
    ghost var shadow: Shadow

    ghost predicate Valid()
      reads this, shadow.ip, shadow.user, shadow.pair
    {
      Good(ipLocks, userLocks, ipUserLocks, shadow)
    }

    /** The values behind the references. */
    ghost function Model(): Locks
      reads this
    {
      shadow.model
    }

    constructor (cfg: Config)
      ensures Valid() && Model() == Locks(map[], map[], map[]) && this.cfg == cfg
      ensures shadow.ip == shadow.user == shadow.pair == {}
    {
      this.cfg := cfg;
      ipLocks, userLocks, ipUserLocks, shadow := map[], map[], map[], Shadow(Locks(map[], map[], map[]), {}, {}, {});
    }

    method UpdateGlobalIPLock(ip: string, now: int, success: bool)
      requires Valid()
      modifies this`ipLocks, this`shadow, shadow.ip
      ensures Valid() && fresh(shadow.ip - old(shadow.ip))
      ensures shadow.user == old(shadow.user) && shadow.pair == old(shadow.pair)
      ensures Model() == old(Model()).(ip := UpdateEntry(old(Model()).ip, ip, now, success, cfg.ip))
    {
      ipLocks, shadow := UpdateIps(ipLocks, userLocks, ipUserLocks, shadow, ip, now, success, cfg.ip);
    }

    method UpdateGlobalUserLock(user: string, now: int, success: bool)
      requires Valid()
      modifies this`userLocks, this`shadow, shadow.user
      ensures Valid() && fresh(shadow.user - old(shadow.user))
      ensures shadow.ip == old(shadow.ip) && shadow.pair == old(shadow.pair)
      ensures Model() == if user == "" then old(Model())
                         else old(Model()).(user := UpdateEntry(old(Model()).user, user, now, success, cfg.user))
    {
      if user == "" {
        return;
      }
      userLocks, shadow := UpdateUsers(ipLocks, userLocks, ipUserLocks, shadow, user, now, success, cfg.user);
    }

    method UpdateUserIPLock(user: string, ip: string, now: int, success: bool)
      requires Valid()
      modifies this`ipUserLocks, this`shadow, shadow.pair
      ensures Valid() && fresh(shadow.pair - old(shadow.pair))
      ensures shadow.ip == old(shadow.ip) && shadow.user == old(shadow.user)
      ensures Model()
              == if user == "" then old(Model()) else UpdatedPair(old(Model()), user, ip, now, success, cfg.ipUser)
    {
      if user == "" {
        return;
      }
      ipUserLocks, shadow := UpdateUserIps(ipLocks, userLocks, ipUserLocks, shadow, user, ip, now, success, cfg.ipUser);
    }

    /** UpdateLoginStatus. `ip` is the remote address without its port, None when it has none. */
    method UpdateLoginStatus(user: string, ip: Option<string>, now: int, success: bool)
      requires Valid()
      modifies this`ipLocks, this`userLocks, this`ipUserLocks, this`shadow, shadow.ip, shadow.user, shadow.pair
      ensures Valid() && Model() == LockManager.UpdateLoginStatus(cfg, old(Model()), user, ip, now, success)
      ensures fresh(shadow.ip - old(shadow.ip)) && fresh(shadow.user - old(shadow.user))
      ensures fresh(shadow.pair - old(shadow.pair))
    {
      if ip.None? {
        return;
      }
      UpdateGlobalIPLock(ip.value, now, success);
      UpdateGlobalUserLock(user, now, success);
      UpdateUserIPLock(user, ip.value, now, success);
    }

    method CheckGlobalIPLock(ip: string, now: int) returns (refused: bool)
      requires Valid()
      modifies this`shadow, shadow.ip
      ensures Valid() && shadow == old(shadow).(model := Model())
      ensures var (m, r) := CheckEntry(old(Model()).ip, ip, now, cfg.ip.reset);
              refused == r && Model() == old(Model()).(ip := m)
    {
      refused := CheckSpace(ipLocks, shadow.model.ip, ip, now, cfg.ip.reset, 0, shadow.ip);
      shadow := shadow.(model := shadow.model.(ip := CheckEntry(shadow.model.ip, ip, now, cfg.ip.reset).0));
    }

    method CheckGlobalUserLock(user: string, now: int) returns (refused: bool)
      requires Valid()
      modifies this`shadow, shadow.user
      ensures Valid() && shadow == old(shadow).(model := Model())
      ensures if user == "" then !refused && Model() == old(Model()) else
              var (m, r) := CheckEntry(old(Model()).user, user, now, cfg.user.reset);
              refused == r && Model() == old(Model()).(user := m)
    {
      if user == "" {
        return false;
      }
      refused := CheckSpace(userLocks, shadow.model.user, user, now, cfg.user.reset, 1, shadow.user);
      shadow := shadow.(model := shadow.model.(user := CheckEntry(shadow.model.user, user, now, cfg.user.reset).0));
    }

    method CheckUserIPLock(user: string, ip: string, now: int) returns (refused: bool)
      requires Valid()
      modifies this`shadow, shadow.pair
      ensures Valid() && shadow == old(shadow).(model := Model())
      ensures if user == "" then !refused && Model() == old(Model()) else
              var (m, r) := CheckPair(old(Model()).ipUser, user, ip, now, cfg.ipUser.reset);
              refused == r && Model() == old(Model()).(ipUser := m)
    {
      if user == "" {
        return false;
      }
      refused := CheckPairs(ipUserLocks, shadow.model.ipUser, user, ip, now, cfg.ipUser.reset, shadow.pair);
      ghost var checked := CheckPair(shadow.model.ipUser, user, ip, now, cfg.ipUser.reset).0;
      shadow := shadow.(model := shadow.model.(ipUser := checked));
    }

    /** CheckLocked: true admits. */
    method CheckLocked(q: Request) returns (admits: bool)
      requires Valid()
      modifies this`shadow, shadow.ip, shadow.user, shadow.pair
      ensures Valid() && shadow == old(shadow).(model := Model())
      ensures (Model(), admits) == LockManager.CheckLocked(cfg, old(Model()), q)
    {
      if !cfg.enabled || q.ip.None? || q.whitelisted {
        return true;
      }
      if cfg.ip.max > 0 {
        var refused := CheckGlobalIPLock(q.ip.value, q.now);
        if refused {
          return false;
        }
      }
      if cfg.user.max > 0 {
        var refused := CheckGlobalUserLock(q.user, q.now);
        if refused {
          return false;
        }
      }
      if cfg.ipUser.max > 0 {
        var refused := CheckUserIPLock(q.user, q.ip.value, q.now);
        if refused {
          return false;
        }
      }
      return true;
    }

    /** CleanupExpiredLocks. */
    method CleanupExpiredLocks(now: int)
      requires Valid()
      modifies this`ipLocks, this`userLocks, this`ipUserLocks, this`shadow, shadow.ip, shadow.user, shadow.pair
      ensures Valid() && shadow == old(shadow).(model := Model()) && Model() == Swept(cfg, old(Model()), now)
    {
      SweepIps(now);
      SweepUsers(now);
      SweepUserIps(now);
    }

    method SweepIps(now: int)
      requires Valid()
      modifies this`ipLocks, this`shadow, shadow.ip
      ensures Valid() && shadow == old(shadow).(model := Model())
      ensures Model() == old(Model()).(ip := SweptSpace(old(Model()).ip, now, cfg.ip.reset, cfg.expiration))
    {
      ipLocks, shadow := CleanIps(ipLocks, userLocks, ipUserLocks, shadow, now, cfg.ip.reset, cfg.expiration);
    }

    method SweepUsers(now: int)
      requires Valid()
      modifies this`userLocks, this`shadow, shadow.user
      ensures Valid() && shadow == old(shadow).(model := Model())
      ensures Model() == old(Model()).(user := SweptSpace(old(Model()).user, now, cfg.user.reset, cfg.expiration))
    {
      userLocks, shadow := CleanUsers(ipLocks, userLocks, ipUserLocks, shadow, now, cfg.user.reset, cfg.expiration);
    }

    method SweepUserIps(now: int)
      requires Valid()
      modifies this`ipUserLocks, this`shadow, shadow.pair
      ensures Valid() && shadow == old(shadow).(model := Model())
      ensures Model() == old(Model()).(ipUser := SweptPairs(old(Model()).ipUser, now, cfg.ipUser.reset, cfg.expiration))
    {
      ipUserLocks, shadow := CleanUserIps(ipLocks, userLocks, ipUserLocks, shadow, now, cfg.ipUser.reset,
                                          cfg.expiration);
    }
  }
}
