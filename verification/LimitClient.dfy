/** The client slots: one counter per user and one for everybody, in a single map. */
module LimitClient {
  const LIMIT_ALL_KEY := "__ALL__"

  type Counters = map<string, int>

  datatype Limits = Limits(maxClient: int, maxUserClient: int)

  function Count(m: Counters, key: string): int { if key in m then m[key] else 0 }

  function Bound(n: int): nat { if n < 0 then 0 else n }

  /** LimitClient: the counters and the answer after one call. */
  function Limited(l: Limits, m: Counters, user: string, close: bool): (Counters, bool) {
    var all, c := Count(m, LIMIT_ALL_KEY), Count(m, user);
    var seen := if user in m then m else m[user := 0];
    if close then (seen[user := c - 1][LIMIT_ALL_KEY := all - 1], true)
    else if all >= l.maxClient || c >= l.maxUserClient then (seen, false)
    else (seen[user := c + 1][LIMIT_ALL_KEY := all + 1], true)
  }

  /** The counters record exactly these slot holders. A user called like the global key shares its counter. */
  ghost predicate Records(m: Counters, holders: multiset<string>) {
    && LIMIT_ALL_KEY in m && m[LIMIT_ALL_KEY] == |holders|
    && forall user :: user != LIMIT_ALL_KEY ==> Count(m, user) == holders[user]
  }

  ghost predicate WithinLimits(l: Limits, holders: multiset<string>) {
    && |holders| <= Bound(l.maxClient)
    && forall user :: user != LIMIT_ALL_KEY ==> holders[user] <= Bound(l.maxUserClient)
  }

  /** The counters record exactly these holders and the limits are kept. */
  ghost predicate Exact(l: Limits, m: Counters, holders: multiset<string>) {
    Records(m, holders) && WithinLimits(l, holders)
  }

  /** A slot is given exactly when neither the total nor the user's share is used up. */
  lemma OpenIsExact(l: Limits, m: Counters, holders: multiset<string>, user: string)
    requires Exact(l, m, holders)
    ensures var (n, ok) := Limited(l, m, user, false);
      && Exact(l, n, if ok then holders + multiset{user} else holders)
      && (user != LIMIT_ALL_KEY ==> (ok <==> |holders| < l.maxClient && holders[user] < l.maxUserClient))
  {
    assert |holders + multiset{user}| == |holders| + 1;
  }

  lemma CloseIsExact(l: Limits, m: Counters, holders: multiset<string>, user: string)
    requires Exact(l, m, holders) && user in holders
    ensures var n := Limited(l, m, user, true).0;
            Exact(l, n, holders - multiset{user})
  {
    assert |holders - multiset{user}| == |holders| - 1;
  }

  /** Whatever the counters are: a slot given adds one to the user's and to the global counter, a slot given back takes
      one from each, held or not, a refusal changes neither, and no other counter changes. A new user is entered. */
  lemma ChangesByOne(l: Limits, m: Counters, user: string, close: bool, key: string)
    requires user != LIMIT_ALL_KEY
    ensures var (n, ok) := Limited(l, m, user, close);
            var change := if close then -1 else if ok then 1 else 0;
      && (ok <==> close || (Count(m, LIMIT_ALL_KEY) < l.maxClient && Count(m, user) < l.maxUserClient))
      && Count(n, key) == Count(m, key) + (if key == user || key == LIMIT_ALL_KEY then change else 0)
      && n.Keys == m.Keys + {user} + (if ok then {LIMIT_ALL_KEY} else {})
  {}

  ghost function Sum(m: Counters, keys: set<string>): int
    requires keys <= m.Keys
  {
    if keys == {} then 0 else var k :| k in keys; m[k] + Sum(m, keys - {k})
  }

  lemma {:induction false} SumIsSize(m: Counters, keys: set<string>, holders: multiset<string>)
    requires keys <= m.Keys
    requires forall k :: k in keys ==> m[k] == holders[k]
    requires forall k :: k in holders ==> k in keys
    ensures Sum(m, keys) == |holders|
  {
    if keys == {} {
      assert holders == multiset{};
    } else {
      var k :| k in keys && Sum(m, keys) == m[k] + Sum(m, keys - {k});
      var rest := holders[k := 0];
      assert holders == rest + multiset{k}[k := holders[k]];
      SumIsSize(m, keys - {k}, rest);
    }
  }

  /** The per-user counters add up to the global one exactly when no user called like the global key holds a slot. */
  lemma UserCountersAddUp(m: Counters, holders: multiset<string>)
    requires Records(m, holders)
    ensures Sum(m, m.Keys - {LIMIT_ALL_KEY}) == m[LIMIT_ALL_KEY] <==> LIMIT_ALL_KEY !in holders
  {
    var users := holders[LIMIT_ALL_KEY := 0];
    forall k | k in users ensures k in m.Keys - {LIMIT_ALL_KEY} {
      assert Count(m, k) == holders[k];
    }
    forall k | k in m.Keys - {LIMIT_ALL_KEY} ensures m[k] == users[k] {
      assert Count(m, k) == holders[k];
    }
    SumIsSize(m, m.Keys - {LIMIT_ALL_KEY}, users);
    assert holders == users + multiset{LIMIT_ALL_KEY}[LIMIT_ALL_KEY := holders[LIMIT_ALL_KEY]];
  }

  /** The counters in place. Every call runs under limitMux. */
  class Limiter {
    const limits: Limits
    var limitClient: Counters

    constructor (limits: Limits)
      ensures this.limits == limits && Records(limitClient, multiset{})
    {
      this.limits := limits;
      limitClient := map[LIMIT_ALL_KEY := 0];
    }

    method LimitClient(user: string, close: bool) returns (ok: bool)
      modifies this
      ensures (limitClient, ok) == Limited(limits, old(limitClient), user, close)
    {
      var all := if LIMIT_ALL_KEY in limitClient then limitClient[LIMIT_ALL_KEY] else 0;
      var c := 0;
      if user in limitClient {
        c := limitClient[user];
      } else {
        limitClient := limitClient[user := 0];
      }
      if close {
        limitClient := limitClient[user := c - 1];
        limitClient := limitClient[LIMIT_ALL_KEY := all - 1];
        return true;
      }
      if all >= limits.maxClient {
        return false;
      }
      if c >= limits.maxUserClient {
        return false;
      }
      limitClient := limitClient[user := c + 1];
      limitClient := limitClient[LIMIT_ALL_KEY := all + 1];
      return true;
    }
  }
}
