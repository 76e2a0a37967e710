/** The locks of the session package, why no set of its threads can deadlock, and the one call that spoils it.

    A thread is what is left of its calls: the sequence of lock operations its code path performs. RWMutex follows Go:
    a writer first announces itself, and from then on keeps new readers out while it waits for the present ones. */
module LockOrder {
  datatype Lock =
    | SessMux                 // the session tables
    | CloseOnce(conn: nat)    // sync.Once of a connection, held while its function runs
    | Mux(sess: nat)          // the mutex of one session
    | DtlsOnce(dtls: nat)     // sync.Once of a DTLS connection
    | IpPoolMux
    | LimitMux

  datatype Mode = Read | Write

  datatype Op = Acquire(lock: Lock, mode: Mode) | Release(lock: Lock)

  type Program = seq<Op>

  /** The strict order: session tables, closeOnce, session, DTLS closeOnce, and last the two leaf mutexes. */
  function Rank(l: Lock): nat {
    match l
    case SessMux => 0
    case CloseOnce(_) => 1
    case Mux(_) => 2
    case DtlsOnce(_) => 3
    case IpPoolMux => 4
    case LimitMux => 4
  }

  // ---------------------------------------------------------------- the code paths

  function Section(l: Lock, mode: Mode, body: Program): Program { [Acquire(l, mode)] + body + [Release(l)] }

  /** LimitClient. */
  function LimitPath(): Program { Section(LimitMux, Write, []) }

  /** AcquireIp and ReleaseIp. */
  function IpPath(): Program { Section(IpPoolMux, Write, []) }

  /** How a call of Close finds the sync.Once: done without looking, done once it got in, or first. */
  datatype OnceCase = FastPath | AlreadyDone | First

  function DtlsClosePath(d: nat, once: OnceCase): Program {
    if once.FastPath? then [] else Section(DtlsOnce(d), Write, [])
  }

  /** The DTLS connection a closing connection finds active, if any. */
  datatype Dtls = NoDtls | SomeDtls(dtls: nat, once: OnceCase)

  function ClosePath(conn: nat, sess: nat, once: OnceCase, dtls: Dtls): Program {
    match once
    case FastPath => []
    case AlreadyDone => Section(CloseOnce(conn), Write, [])
    case First =>
      Section(CloseOnce(conn), Write,
        Section(Mux(sess), Write,
          (if dtls.NoDtls? then [] else DtlsClosePath(dtls.dtls, dtls.once)) + IpPath() + LimitPath()))
  }

  /** One call of Close on some connection. */
  datatype Closing = Closing(conn: nat, sess: nat, once: OnceCase, dtls: Dtls)

  function CloseOf(x: Closing): Program { ClosePath(x.conn, x.sess, x.once, x.dtls) }

  /** How far NewConn gets. */
  datatype Outcome = NoSlot | NoAddress | NoGroup | Installed

  function NewConnPath(sess: nat, former: seq<Closing>, outcome: Outcome): Program
    requires |former| <= 1
  {
    Section(Mux(sess), Read, [])
    + (if former == [] then [] else CloseOf(former[0]))
    + LimitPath()
    + (match outcome
       case NoSlot => []
       case NoAddress => IpPath() + LimitPath()
       case NoGroup => IpPath()
       case Installed => IpPath() + Section(Mux(sess), Write, []))
  }

  /** Visiting every session under the table lock: the expiry scans and the statistics. */
  function EachSession(sess: seq<nat>, mode: Mode): Program {
    if sess == [] then [] else Section(Mux(sess[0]), mode, []) + EachSession(sess[1..], mode)
  }

  function ScanPath(table: Mode, sess: seq<nat>, mode: Mode): Program {
    Section(SessMux, table, EachSession(sess, mode))
  }

  /** What GetOnlineSess finds at a session: whether the search matches it, and whether it has a connection. */
  datatype Visit = Visit(sess: nat, matched: bool, connected: bool)

  /** A session without a connection is given an empty one, whose DTLS field is nil: asking it for its side channel
      panics. */
  predicate Dies(v: Visit, sleepers: bool) { sleepers && v.matched && !v.connected }

  /** The visits up to a panic, which leaves that session's mutex locked. */
  function Visits(vs: seq<Visit>, sleepers: bool): Program {
    if vs == [] then []
    else if Dies(vs[0], sleepers) then [Acquire(Mux(vs[0].sess), Write)]
    else Section(Mux(vs[0].sess), Write, []) + Visits(vs[1..], sleepers)
  }

  /** GetOnlineSess: the table lock is given back in any case, by a deferred call; the HTTP server recovers the
      panic. */
  function OnlinePath(vs: seq<Visit>, sleepers: bool): Program { Section(SessMux, Write, Visits(vs, sleepers)) }

  /** CloseSess with the table lock for writing, CloseCSess with it for reading. */
  function CloseByTokenPath(table: Mode, closes: seq<Closing>): Program
    requires |closes| <= 1
  {
    Section(SessMux, table, if closes == [] then [] else CloseOf(closes[0]))
  }

  /** One call into the package. */
  datatype Call =
    | NewSessionCall
    | NewConnCall(sess: nat, former: seq<Closing>, outcome: Outcome)
    | CloseCall(close: Closing)
    | DtlsCloseCall(dtls: nat, once: OnceCase)
    | CloseByTokenCall(table: Mode, closes: seq<Closing>)
    | ScanCall(table: Mode, visited: seq<nat>, mode: Mode)
    | OnlineCall(visits: seq<Visit>, sleepers: bool)
    | DtlsLookupCall(found: seq<nat>)          // Dtls2CSess: the session is read inside the table lock
    | MasterSecretCall(found: seq<nat>)        // Dtls2MasterSecret: the session is read after it
    | SetIfNameCall(sess: nat)

  predicate WellFormed(c: Call) {
    match c
    case NewConnCall(_, former, _) => |former| <= 1
    case CloseByTokenCall(_, closes) => |closes| <= 1
    case _ => true
  }

  /** The on-line list is asked for with sleeping sessions, and one that the search matches has no connection. */
  predicate Panics(c: Call) {
    c.OnlineCall? && exists i :: 0 <= i < |c.visits| && Dies(c.visits[i], c.sleepers)
  }

  function Path(c: Call): Program
    requires WellFormed(c)
  {
    match c
    case NewSessionCall => Section(SessMux, Write, [])
    case NewConnCall(sess, former, outcome) => NewConnPath(sess, former, outcome)
    case CloseCall(close) => CloseOf(close)
    case DtlsCloseCall(dtls, once) => DtlsClosePath(dtls, once)
    case CloseByTokenCall(table, closes) => CloseByTokenPath(table, closes)
    case ScanCall(table, visited, mode) => ScanPath(table, visited, mode)
    case OnlineCall(visits, sleepers) => OnlinePath(visits, sleepers)
    case DtlsLookupCall(found) => Section(SessMux, Read, EachSession(found, Read))
    case MasterSecretCall(found) => Section(SessMux, Read, []) + EachSession(found, Read)
    case SetIfNameCall(sess) => Section(Mux(sess), Write, [])
  }

  /** A thread makes any calls one after the other, such as the expiry goroutine: a scan, then one CloseSess per
      token. */
  function Thread(calls: seq<Call>): Program
    requires forall c :: c in calls ==> WellFormed(c)
  {
    if calls == [] then [] else Path(calls[0]) + Thread(calls[1..])
  }

  // ---------------------------------------------------------------- what the paths take

  /** What the first Close does with the session's mutex held. */
  function Returns(dtls: Dtls): Program {
    (if dtls.NoDtls? then [] else DtlsClosePath(dtls.dtls, dtls.once)) + IpPath() + LimitPath()
  }

  lemma ReturnsTakes(dtls: Dtls, l: Lock, m: Mode)
    ensures Acquire(l, m) in Returns(dtls) <==>
      m == Write && (l == IpPoolMux || l == LimitMux
                     || (dtls.SomeDtls? && !dtls.once.FastPath? && l == DtlsOnce(dtls.dtls)))
  {}

  /** The first Close of a connection takes closeOnce, the session, and while it holds both the active side channel's
      closeOnce, the allocator and the limiter; a repeated one at most looks at closeOnce. */
  lemma CloseTakes(conn: nat, sess: nat, once: OnceCase, dtls: Dtls)
    ensures ClosePath(conn, sess, once, dtls) == match once
              case FastPath => []
              case AlreadyDone => [Acquire(CloseOnce(conn), Write), Release(CloseOnce(conn))]
              case First =>
                [Acquire(CloseOnce(conn), Write), Acquire(Mux(sess), Write)] + Returns(dtls)
                + [Release(Mux(sess)), Release(CloseOnce(conn))]
  {
    if once.First? {
      var inner := [Acquire(Mux(sess), Write)] + Returns(dtls) + [Release(Mux(sess))];
      assert inner == Section(Mux(sess), Write, Returns(dtls));
      assert ClosePath(conn, sess, once, dtls)
             == [Acquire(CloseOnce(conn), Write)] + inner + [Release(CloseOnce(conn))];
    }
  }

  /** NewConn takes the session to read it, whatever the Close of the former connection takes, the limiter, the
      allocator if there is a slot, and the session to write it if the connection is installed. */
  lemma NewConnTakes(sess: nat, former: seq<Closing>, outcome: Outcome, l: Lock, m: Mode)
    requires |former| <= 1
    ensures Acquire(l, m) in NewConnPath(sess, former, outcome) <==>
      || (l == Mux(sess) && (m == Read || (m == Write && outcome.Installed?)))
      || (former != [] && Acquire(l, m) in CloseOf(former[0]))
      || (l == LimitMux && m == Write)
      || (l == IpPoolMux && m == Write && !outcome.NoSlot?)
    ensures var p := NewConnPath(sess, former, outcome);
            outcome.NoAddress? ==> |p| >= 4 && p[|p| - 4..] == IpPath() + LimitPath()
  {}

  // ---------------------------------------------------------------- the order is kept

  /** Running `p` while holding `held`: every lock taken ranks above all locks held, every lock given back was held,
      and nothing is held at the end but `held` itself. */
  predicate Ordered(p: Program, held: set<Lock>) {
    if p == [] then true
    else match p[0]
      case Acquire(l, _) => (forall h :: h in held ==> Rank(h) < Rank(l)) && Ordered(p[1..], held + {l})
      case Release(l) => l in held && Ordered(p[1..], held - {l})
  }

  function HeldAfter(p: Program, held: set<Lock>): set<Lock> {
    if p == [] then held
    else match p[0]
      case Acquire(l, _) => HeldAfter(p[1..], held + {l})
      case Release(l) => HeldAfter(p[1..], held - {l})
  }

  /** `p` keeps the order above any held locks that rank below `floor`, and gives back all it takes. */
  ghost predicate Nested(p: Program, floor: nat) {
    forall held: set<Lock> :: (forall h :: h in held ==> Rank(h) < floor) ==>
      Ordered(p, held) && HeldAfter(p, held) == held
  }

  lemma {:induction false} OrderedAppend(p: Program, q: Program, held: set<Lock>)
    ensures Ordered(p + q, held) <==> Ordered(p, held) && Ordered(q, HeldAfter(p, held))
    ensures HeldAfter(p + q, held) == HeldAfter(q, HeldAfter(p, held))
  {
    if p == [] {
      assert p + q == q;
    } else {
      assert (p + q)[1..] == p[1..] + q;
      OrderedAppend(p[1..], q, match p[0] case Acquire(l, _) => held + {l} case Release(l) => held - {l});
    }
  }

  lemma NestedAppend(p: Program, q: Program, floor: nat)
    requires Nested(p, floor) && Nested(q, floor)
    ensures Nested(p + q, floor)
  {
    forall held: set<Lock> | forall h :: h in held ==> Rank(h) < floor
      ensures Ordered(p + q, held) && HeldAfter(p + q, held) == held
    {
      OrderedAppend(p, q, held);
    }
  }

  lemma NestedSection(l: Lock, mode: Mode, body: Program, floor: nat)
    requires floor <= Rank(l) && Nested(body, Rank(l) + 1)
    ensures Nested(Section(l, mode, body), floor)
  {
    forall held: set<Lock> | forall h :: h in held ==> Rank(h) < floor
      ensures Ordered(Section(l, mode, body), held) && HeldAfter(Section(l, mode, body), held) == held
    {
      var inner := held + {l};
      assert Section(l, mode, body)[1..] == body + [Release(l)];
      OrderedAppend(body, [Release(l)], inner);
      assert inner - {l} == held;
    }
  }

  lemma EmptyIsNested(floor: nat)
    ensures Nested([], floor)
  {}

  lemma NestedLower(p: Program, floor: nat, lower: nat)
    requires Nested(p, floor) && lower <= floor
    ensures Nested(p, lower)
  {}

  lemma CloseIsNested(x: Closing)
    ensures Nested(CloseOf(x), 1)
  {
    EmptyIsNested(5);
    NestedSection(LimitMux, Write, [], 3);
    NestedSection(IpPoolMux, Write, [], 3);
    EmptyIsNested(3);
    var dtls := if x.dtls.NoDtls? then [] else DtlsClosePath(x.dtls.dtls, x.dtls.once);
    if x.dtls.SomeDtls? && !x.dtls.once.FastPath? {
      EmptyIsNested(4);
      NestedSection(DtlsOnce(x.dtls.dtls), Write, [], 3);
    }
    NestedAppend(dtls, IpPath(), 3);
    NestedAppend(dtls + IpPath(), LimitPath(), 3);
    NestedSection(Mux(x.sess), Write, dtls + IpPath() + LimitPath(), 2);
    NestedSection(CloseOnce(x.conn), Write, Section(Mux(x.sess), Write, dtls + IpPath() + LimitPath()), 1);
    EmptyIsNested(2);
    NestedSection(CloseOnce(x.conn), Write, [], 1);
    EmptyIsNested(1);
  }

  lemma {:induction false} EachSessionIsNested(sess: seq<nat>, mode: Mode)
    ensures Nested(EachSession(sess, mode), 1)
  {
    EmptyIsNested(1);
    if sess != [] {
      EmptyIsNested(3);
      NestedSection(Mux(sess[0]), mode, [], 1);
      EachSessionIsNested(sess[1..], mode);
      NestedAppend(Section(Mux(sess[0]), mode, []), EachSession(sess[1..], mode), 1);
    }
  }

  lemma {:induction false} VisitsAreNested(vs: seq<Visit>, sleepers: bool)
    requires forall i :: 0 <= i < |vs| ==> !Dies(vs[i], sleepers)
    ensures Nested(Visits(vs, sleepers), 1)
    decreases |vs|
  {
    EmptyIsNested(1);
    if vs != [] {
      EmptyIsNested(3);
      NestedSection(Mux(vs[0].sess), Write, [], 1);
      VisitsAreNested(vs[1..], sleepers);
      NestedAppend(Section(Mux(vs[0].sess), Write, []), Visits(vs[1..], sleepers), 1);
    }
  }

  lemma NewConnIsNested(sess: nat, former: seq<Closing>, outcome: Outcome)
    requires |former| <= 1
    ensures Nested(NewConnPath(sess, former, outcome), 0)
  {
    EmptyIsNested(3);
    EmptyIsNested(5);
    EmptyIsNested(0);
    NestedSection(Mux(sess), Read, [], 0);
    NestedSection(Mux(sess), Write, [], 0);
    NestedSection(LimitMux, Write, [], 0);
    NestedSection(IpPoolMux, Write, [], 0);
    var close := if former == [] then [] else CloseOf(former[0]);
    if former != [] {
      CloseIsNested(former[0]);
      NestedLower(close, 1, 0);
    }
    NestedAppend(Section(Mux(sess), Read, []), close, 0);
    NestedAppend(Section(Mux(sess), Read, []) + close, LimitPath(), 0);
    NestedAppend(IpPath(), LimitPath(), 0);
    NestedAppend(IpPath(), Section(Mux(sess), Write, []), 0);
    var tail := match outcome
      case NoSlot => []
      case NoAddress => IpPath() + LimitPath()
      case NoGroup => IpPath()
      case Installed => IpPath() + Section(Mux(sess), Write, []);
    NestedAppend(Section(Mux(sess), Read, []) + close + LimitPath(), tail, 0);
  }

  lemma PathIsNested(c: Call)
    requires WellFormed(c) && !Panics(c)
    ensures Nested(Path(c), 0)
  {
    EmptyIsNested(0);
    EmptyIsNested(1);
    EmptyIsNested(3);
    EmptyIsNested(4);
    match c
    case NewSessionCall => NestedSection(SessMux, Write, [], 0);
    case NewConnCall(sess, former, outcome) => NewConnIsNested(sess, former, outcome);
    case CloseCall(close) =>
      CloseIsNested(close);
      NestedLower(CloseOf(close), 1, 0);
    case DtlsCloseCall(dtls, once) => NestedSection(DtlsOnce(dtls), Write, [], 0);
    case CloseByTokenCall(table, closes) =>
      if closes != [] {
        CloseIsNested(closes[0]);
      }
      NestedSection(SessMux, table, if closes == [] then [] else CloseOf(closes[0]), 0);
    case ScanCall(table, visited, mode) =>
      EachSessionIsNested(visited, mode);
      NestedSection(SessMux, table, EachSession(visited, mode), 0);
    case OnlineCall(visits, sleepers) =>
      VisitsAreNested(visits, sleepers);
      NestedSection(SessMux, Write, Visits(visits, sleepers), 0);
    case DtlsLookupCall(found) =>
      EachSessionIsNested(found, Read);
      NestedSection(SessMux, Read, EachSession(found, Read), 0);
    case MasterSecretCall(found) =>
      EachSessionIsNested(found, Read);
      NestedLower(EachSession(found, Read), 1, 0);
      NestedSection(SessMux, Read, [], 0);
      NestedAppend(Section(SessMux, Read, []), EachSession(found, Read), 0);
    case SetIfNameCall(sess) => NestedSection(Mux(sess), Write, [], 0);
  }

  /** Any calls that do not panic, in any order, keep the lock order and end holding nothing. */
  lemma {:induction false} ThreadsKeepTheOrder(calls: seq<Call>)
    requires forall c :: c in calls ==> WellFormed(c) && !Panics(c)
    ensures Nested(Thread(calls), 0) && Ordered(Thread(calls), {}) && HeldAfter(Thread(calls), {}) == {}
  {
    EmptyIsNested(0);
    if calls != [] {
      PathIsNested(calls[0]);
      ThreadsKeepTheOrder(calls[1..]);
      NestedAppend(Path(calls[0]), Thread(calls[1..]), 0);
    }
  }

  // ---------------------------------------------------------------- the threads together

  /** What a thread still has to do, the locks it holds and how, and whether it has announced itself as a writer. */
  datatype ThreadState = ThreadState(todo: Program, held: map<Lock, Mode>, announced: bool)

  type System = map<nat, ThreadState>

  ghost predicate Holds(sys: System, l: Lock, mode: Mode) {
    exists t :: t in sys && l in sys[t].held && sys[t].held[l] == mode
  }

  /** Thread `t` has announced a write lock on `l` and waits for it. */
  ghost predicate WaitsToWrite(x: ThreadState, l: Lock) {
    x.announced && x.todo != [] && x.todo[0] == Acquire(l, Write)
  }

  ghost predicate CanGo(sys: System, t: nat)
    requires t in sys
  {
    var x := sys[t];
    x.todo != [] &&
    match x.todo[0]
    case Release(_) => true
    case Acquire(l, Read) => !Holds(sys, l, Write) && !exists u :: u in sys && WaitsToWrite(sys[u], l)
    case Acquire(l, Write) => !x.announced || (!Holds(sys, l, Write) && !Holds(sys, l, Read))
  }

  function Advanced(x: ThreadState): ThreadState
    requires x.todo != []
  {
    match x.todo[0]
    case Release(l) => ThreadState(x.todo[1..], x.held - {l}, false)
    case Acquire(l, Read) => ThreadState(x.todo[1..], x.held[l := Read], false)
    case Acquire(l, Write) =>
      if !x.announced then x.(announced := true) else ThreadState(x.todo[1..], x.held[l := Write], false)
  }

  ghost predicate Next(sys: System, sys': System) {
    exists t :: t in sys && CanGo(sys, t) && sys' == sys[t := Advanced(sys[t])]
  }

  /** A thread about to make calls that `allowed` admits. */
  ghost predicate Begins(x: ThreadState, calls: seq<Call>, allowed: Call -> bool) {
    (forall c :: c in calls ==> WellFormed(c) && allowed(c)) && x == ThreadState(Thread(calls), map[], false)
  }

  ghost predicate Starts(sys: System, allowed: Call -> bool) {
    forall t :: t in sys ==> exists calls :: Begins(sys[t], calls, allowed)
  }

  ghost predicate Behaviour(run: seq<System>, allowed: Call -> bool) {
    && run != [] && Starts(run[0], allowed)
    && forall i :: 0 <= i < |run| - 1 ==> Next(run[i], run[i + 1])
  }

  ghost predicate Disciplined(x: ThreadState) {
    Ordered(x.todo, x.held.Keys) && HeldAfter(x.todo, x.held.Keys) == {}
  }

  ghost predicate AllDisciplined(sys: System) {
    forall t :: t in sys ==> Disciplined(sys[t])
  }

  lemma AdvancedIsDisciplined(x: ThreadState)
    requires Disciplined(x) && x.todo != []
    ensures Disciplined(Advanced(x))
  {
    match x.todo[0]
    case Release(l) => assert (x.held - {l}).Keys == x.held.Keys - {l};
    case Acquire(l, mode) => assert x.held[l := mode].Keys == x.held.Keys + {l};
  }

  ghost predicate NoneAllowedPanics(allowed: Call -> bool) {
    forall c :: allowed(c) && WellFormed(c) ==> !Panics(c)
  }

  lemma {:induction false} ReachableIsDisciplined(run: seq<System>, allowed: Call -> bool, i: nat)
    requires Behaviour(run, allowed) && NoneAllowedPanics(allowed) && i < |run|
    ensures AllDisciplined(run[i])
  {
    if i == 0 {
      forall t | t in run[0] ensures Disciplined(run[0][t]) {
        var calls :| Begins(run[0][t], calls, allowed);
        ThreadsKeepTheOrder(calls);
        assert run[0][t].held.Keys == {};
      }
    } else {
      ReachableIsDisciplined(run, allowed, i - 1);
      assert Next(run[i - 1], run[i - 1 + 1]);
      var t :| t in run[i - 1] && CanGo(run[i - 1], t) && run[i] == run[i - 1][t := Advanced(run[i - 1][t])];
      AdvancedIsDisciplined(run[i - 1][t]);
    }
  }

  function WantedRank(x: ThreadState): nat {
    if x.todo != [] && x.todo[0].Acquire? then Rank(x.todo[0].lock) else 0
  }

  /** Among the unfinished threads one waits for a lock of the highest rank. */
  lemma {:induction false} HighestWanted(sys: System, ts: set<nat>) returns (t: nat)
    requires ts != {} && forall u :: u in ts ==> u in sys
    ensures t in ts && forall u :: u in ts ==> WantedRank(sys[u]) <= WantedRank(sys[t])
  {
    t :| t in ts;
    if ts != {t} {
      var u := HighestWanted(sys, ts - {t});
      if WantedRank(sys[t]) < WantedRank(sys[u]) {
        t := u;
      }
    }
  }

  /** A thread that holds a lock still has to give it back. */
  lemma HolderIsUnfinished(x: ThreadState, l: Lock)
    requires Disciplined(x) && l in x.held
    ensures x.todo != []
    ensures x.todo[0].Acquire? ==> Rank(l) < Rank(x.todo[0].lock)
  {}

  /** No reachable deadlock without that panic: as long as some thread is unfinished, some thread can take its next
      step. */
  lemma SomeThreadCanGo(run: seq<System>, allowed: Call -> bool, i: nat)
    requires Behaviour(run, allowed) && NoneAllowedPanics(allowed) && i < |run|
    requires exists t :: t in run[i] && run[i][t].todo != []
    ensures exists t :: t in run[i] && CanGo(run[i], t)
  {
    var sys := run[i];
    ReachableIsDisciplined(run, allowed, i);
    var unfinished := set t | t in sys && sys[t].todo != [];
    var some :| some in sys && sys[some].todo != [];
    assert some in unfinished;
    var t := HighestWanted(sys, unfinished);
    if !CanGo(sys, t) {
      var l := sys[t].todo[0].lock;
      if h :| h in sys && l in sys[h].held {
        HolderIsUnfinished(sys[h], l);
        assert h in unfinished;
        assert sys[h].todo[0].Release?;
        assert CanGo(sys, h);
      } else {
        assert !Holds(sys, l, Write) && !Holds(sys, l, Read);
        var w :| w in sys && WaitsToWrite(sys[w], l);
        assert CanGo(sys, w);
      }
    }
  }

  // ---------------------------------------------------------------- the panic

  /** The visits of a panicking call end with one more lock than they began with. */
  lemma {:induction false} VisitsLeaveOne(vs: seq<Visit>, sleepers: bool, held: set<Lock>) returns (s: nat)
    requires exists i :: 0 <= i < |vs| && Dies(vs[i], sleepers)
    requires forall h :: h in held ==> Rank(h) < 2
    ensures Ordered(Visits(vs, sleepers), held) && HeldAfter(Visits(vs, sleepers), held) == held + {Mux(s)}
    decreases |vs|
  {
    if Dies(vs[0], sleepers) {
      s := vs[0].sess;
      assert Visits(vs, sleepers)[1..] == [];
    } else {
      s := VisitsLeaveOne(vs[1..], sleepers, held);
      EmptyIsNested(3);
      NestedSection(Mux(vs[0].sess), Write, [], 2);
      OrderedAppend(Section(Mux(vs[0].sess), Write, []), Visits(vs[1..], sleepers), held);
    }
  }

  lemma PanicLeavesOne(c: Call) returns (s: nat)
    requires Panics(c)
    ensures Ordered(Thread([c]), {}) && HeldAfter(Thread([c]), {}) == {Mux(s)}
  {
    var body := Visits(c.visits, c.sleepers);
    s := VisitsLeaveOne(c.visits, c.sleepers, {SessMux});
    OrderedAppend(body, [Release(SessMux)], {SessMux});
    assert Thread([c]) == Path(c) + Thread([c][1..]) == Path(c);
    assert Path(c)[1..] == body + [Release(SessMux)];
    assert {} + {SessMux} == {SessMux};
  }

  ghost predicate Reaches(run: seq<System>, allowed: Call -> bool, sys: System) {
    Behaviour(run, allowed) && run[|run| - 1] == sys
  }

  lemma Extend(run: seq<System>, allowed: Call -> bool, sys: System, t: nat) returns (longer: seq<System>)
    requires Reaches(run, allowed, sys) && t in sys && CanGo(sys, t)
    ensures Reaches(longer, allowed, sys[t := Advanced(sys[t])])
  {
    longer := run + [sys[t := Advanced(sys[t])]];
    forall i | 0 <= i < |longer| - 1 ensures Next(longer[i], longer[i + 1]) {
      if i < |run| - 1 {
        assert Next(run[i], run[i + 1]);
      } else {
        assert longer[i] == sys && longer[i + 1] == sys[t := Advanced(sys[t])];
      }
    }
  }

  ghost predicate OthersIdle(sys: System, t: nat) {
    forall u :: u in sys && u != t ==> sys[u].held == map[] && !sys[u].announced
  }

  /** A thread whose locks nobody else holds or wants runs to its end. */
  lemma {:induction false} RunsAlone(run: seq<System>, allowed: Call -> bool, sys: System, t: nat)
    returns (longer: seq<System>, x: ThreadState)
    requires Reaches(run, allowed, sys) && t in sys && OthersIdle(sys, t)
    requires Ordered(sys[t].todo, sys[t].held.Keys) && !sys[t].announced
    ensures x.todo == [] && !x.announced && x.held.Keys == HeldAfter(sys[t].todo, sys[t].held.Keys)
    ensures Reaches(longer, allowed, sys[t := x])
    decreases |sys[t].todo|
  {
    var y := sys[t];
    if y.todo == [] {
      longer, x := run, y;
      assert sys[t := y] == sys;
    } else {
      longer := Extend(run, allowed, sys, t);
      var next := sys[t := Advanced(y)];
      if y.todo[0].Acquire? && y.todo[0].mode.Write? {
        longer := Extend(longer, allowed, next, t);
        next := next[t := Advanced(next[t])];
      }
      HeldKeys(y);
      longer, x := RunsAlone(longer, allowed, next, t);
      assert next[t := x] == sys[t := x];
    }
  }

  lemma HeldKeys(y: ThreadState)
    requires y.todo != []
    ensures match y.todo[0]
            case Release(l) => (y.held - {l}).Keys == y.held.Keys - {l}
            case Acquire(l, mode) => y.held[l := mode].Keys == y.held.Keys + {l}
  {}

  function Statistics(s: nat): Call { ScanCall(Write, [s], Write) }

  lemma StatisticsProgram(s: nat)
    ensures Thread([Statistics(s)]) ==
            [Acquire(SessMux, Write), Acquire(Mux(s), Write), Release(Mux(s)), Release(SessMux)]
  {
    assert EachSession([s], Write)
           == Section(Mux(s), Write, []) + EachSession([s][1..], Write) == Section(Mux(s), Write, []);
    assert Thread([Statistics(s)]) == Path(Statistics(s)) + Thread([Statistics(s)][1..]) == Path(Statistics(s));
  }

  ghost predicate Stuck(sys: System) {
    (exists t :: t in sys && sys[t].todo != []) && forall t :: t in sys ==> !CanGo(sys, t)
  }

  const TABLE := Acquire(SessMux, Write)

  /** The statistics scan takes the table lock and waits for a mutex that nobody will give back. */
  lemma ScanGetsStuck(before: seq<System>, allowed: Call -> bool, x: ThreadState, s: nat) returns (run: seq<System>)
    requires var scan := [TABLE, Acquire(Mux(s), Write), Release(Mux(s)), Release(SessMux)];
             Reaches(before, allowed, map[0 := x, 1 := ThreadState(scan, map[], false)])
    requires x.todo == [] && !x.announced && x.held.Keys == {Mux(s)}
    ensures Behaviour(run, allowed) && Stuck(run[|run| - 1])
  {
    var scan := [TABLE, Acquire(Mux(s), Write), Release(Mux(s)), Release(SessMux)];
    var sys := map[0 := x, 1 := ThreadState(scan, map[], false)];
    run := Extend(before, allowed, sys, 1);
    sys := map[0 := x, 1 := ThreadState(scan, map[], true)];
    run := Extend(run, allowed, sys, 1);
    sys := map[0 := x, 1 := ThreadState(scan[1..], map[SessMux := Write], false)];
    run := Extend(run, allowed, sys, 1);
    sys := map[0 := x, 1 := ThreadState(scan[1..], map[SessMux := Write], true)];
    assert run[|run| - 1] == sys;
    assert Mux(s) in x.held && (x.held[Mux(s)] == Write || x.held[Mux(s)] == Read);
    assert !CanGo(sys, 0) && !CanGo(sys, 1) && sys[1].todo != [];
  }

  /** The panic, then the statistics scan. */
  lemma PanicThenStatistics(c: Call, allowed: Call -> bool) returns (run: seq<System>)
    requires Panics(c) && allowed(c) && forall s :: allowed(Statistics(s))
    ensures Behaviour(run, allowed) && Stuck(run[|run| - 1])
  {
    var s := PanicLeavesOne(c);
    StatisticsProgram(s);
    var first, second := ThreadState(Thread([c]), map[], false), ThreadState(Thread([Statistics(s)]), map[], false);
    var sys := map[0 := first, 1 := second];
    assert Begins(first, [c], allowed) && Begins(second, [Statistics(s)], allowed);
    assert first.held.Keys == {};
    var x;
    run, x := RunsAlone([sys], allowed, sys, 0);
    assert sys[0 := x] == map[0 := x, 1 := second];
    run := ScanGetsStuck(run, allowed, x, s);
  }

  ghost predicate DeadlockFree(allowed: Call -> bool) {
    forall run: seq<System>, i :: Behaviour(run, allowed) && 0 <= i < |run| ==> !Stuck(run[i])
  }

  /** With the statistics scan among the calls, which the server always makes, no deadlock is reachable exactly when
      no call asks for the on-line list with sleeping sessions while one that its search matches has no connection. */
  lemma DeadlockFreeExactlyWhen(allowed: Call -> bool)
    requires forall s :: allowed(Statistics(s))
    ensures DeadlockFree(allowed) <==> NoneAllowedPanics(allowed)
  {
    if NoneAllowedPanics(allowed) {
      forall run: seq<System>, i | Behaviour(run, allowed) && 0 <= i < |run| ensures !Stuck(run[i]) {
        if exists t :: t in run[i] && run[i][t].todo != [] {
          SomeThreadCanGo(run, allowed, i);
        }
      }
    } else {
      var c :| allowed(c) && WellFormed(c) && Panics(c);
      var run := PanicThenStatistics(c, allowed);
    }
  }
}
