/** Byte counting of one direction of a connection: RateLimit adds to a 32-bit counter while ratePeriod swaps it out
    and adds what it took to a 64-bit total. The two run concurrently; every atomic operation is one step. */
module Traffic {
  const U32: int := 0x1_0000_0000
  const U64: int := 0x1_0000_0000_0000_0000
  const PERIOD_SEC := 10

  /** `taken` is the amount ratePeriod has swapped out and not added yet; `reported` and `current` count, without any
      width, what RateLimit was told since the start and since the last swap. `wrapped` and `wrappedAll` count
      overflows. */
  datatype Meter = Meter(counter: nat, taken: nat, busy: bool, perSecond: nat, total: nat,
                         reported: nat, current: nat, wrapped: nat, wrappedAll: nat)

  datatype Step =
    | RateLimit(n: nat)   // Bandwidth.Add(uint32(n))
    | Swap                // Bandwidth.Swap(0)
    | Publish             // BandwidthPeriod.Swap(rt / 10)
    | Accumulate          // BandwidthAll.Add(uint64(rt))

  predicate Enabled(m: Meter, s: Step) {
    match s
    case RateLimit(_) => true
    case Swap => !m.busy
    case Publish => m.busy
    case Accumulate => m.busy
  }

  function Do(m: Meter, s: Step): Meter
    requires Enabled(m, s)
  {
    match s
    case RateLimit(n) =>
      m.(counter := (m.counter + n % U32) % U32, reported := m.reported + n, current := m.current + n,
         wrapped := m.wrapped + (m.counter + n) / U32)
    case Swap => m.(counter := 0, taken := m.counter, busy := true, current := 0)
    case Publish => m.(perSecond := m.taken / PERIOD_SEC)
    case Accumulate =>
      m.(total := (m.total + m.taken) % U64, taken := 0, busy := false,
         wrappedAll := m.wrappedAll + (m.total + m.taken) / U64)
  }

  const Start := Meter(0, 0, false, 0, 0, 0, 0, 0, 0)

  predicate Run(m: Meter, steps: seq<Step>)
    decreases |steps|
  {
    steps == [] || (Enabled(m, steps[0]) && Run(Do(m, steps[0]), steps[1..]))
  }

  function End(m: Meter, steps: seq<Step>): Meter
    requires Run(m, steps)
    decreases |steps|
  {
    if steps == [] then m else End(Do(m, steps[0]), steps[1..])
  }

  /** The bytes reported in each period stay below 2^32, from `m` on. */
  predicate SmallPeriods(m: Meter, steps: seq<Step>)
    requires Run(m, steps)
    decreases |steps|
  {
    m.current < U32 && (steps != [] ==> SmallPeriods(Do(m, steps[0]), steps[1..]))
  }

  ghost predicate Balanced(m: Meter) {
    && m.counter < U32 && m.total < U64 && m.counter <= m.current && (!m.busy ==> m.taken == 0)
    && m.reported == m.total + m.taken + m.counter + U32 * m.wrapped + U64 * m.wrappedAll
  }

  lemma Carry(unit: int, low: nat, n: nat, high: nat)
    requires unit > 0
    ensures (low + n) % unit + unit * (high + (low + n) / unit) == low + n + unit * high
  {
    assert (low + n) % unit + unit * ((low + n) / unit) == low + n;
    assert unit * (high + (low + n) / unit) == unit * high + unit * ((low + n) / unit);
  }

  /** Truncating the argument first changes nothing. */
  lemma TruncatedAdd(low: nat, n: nat)
    ensures (low + n % U32) % U32 == (low + n) % U32
  {}

  lemma StepBalances(m: Meter, s: Step)
    requires Balanced(m) && Enabled(m, s)
    ensures Balanced(Do(m, s))
  {
    match s
    case RateLimit(n) =>
      TruncatedAdd(m.counter, n);
      Carry(U32, m.counter, n, m.wrapped);
    case Accumulate => Carry(U64, m.total, m.taken, m.wrappedAll);
    case _ =>
  }

  lemma {:induction false} RunBalances(m: Meter, steps: seq<Step>)
    requires Balanced(m) && Run(m, steps)
    ensures Balanced(End(m, steps))
    ensures End(m, steps).wrapped >= m.wrapped
    decreases |steps|
  {
    if steps != [] {
      StepBalances(m, steps[0]);
      RunBalances(Do(m, steps[0]), steps[1..]);
    }
  }

  lemma {:induction false} SmallPeriodsNeverWrap(m: Meter, steps: seq<Step>)
    requires Balanced(m) && Run(m, steps) && m.counter == m.current
    ensures SmallPeriods(m, steps) <==> End(m, steps).wrapped == m.wrapped
    decreases |steps|
  {
    if steps != [] {
      var next := Do(m, steps[0]);
      StepBalances(m, steps[0]);
      RunBalances(next, steps[1..]);
      if next.counter == next.current {
        assert steps[0].RateLimit? ==> next.wrapped == m.wrapped;
        SmallPeriodsNeverWrap(next, steps[1..]);
      } else {
        assert next.current >= U32 && next.wrapped > m.wrapped;
      }
    }
  }

  /** Conservation at every point of every interleaving: what RateLimit was told is the total, plus the counter, plus
      what is swapped out but not yet added, exactly when every period stayed below 2^32 bytes and the total never
      overflowed, which it does not below 2^64 bytes. */
  lemma TrafficIsConserved(steps: seq<Step>)
    requires Run(Start, steps)
    ensures var m := End(Start, steps);
      && (m.reported == m.total + m.taken + m.counter <==> SmallPeriods(Start, steps) && m.wrappedAll == 0)
      && (m.reported < U64 ==> m.wrappedAll == 0)
  {
    RunBalances(Start, steps);
    SmallPeriodsNeverWrap(Start, steps);
    var m := End(Start, steps);
    if m.wrapped > 0 {
      assert U32 * m.wrapped > 0;
    }
    if m.wrappedAll > 0 {
      assert U64 * m.wrappedAll >= U64;
    }
  }

  // ---------------------------------------------------------------- the rate

  /** What RateLimit was told in these steps. */
  function Told(steps: seq<Step>): nat {
    if steps == [] then 0 else (if steps[0].RateLimit? then steps[0].n else 0) + Told(steps[1..])
  }

  /** Between two swaps the counter holds what RateLimit was told, modulo its width. */
  lemma {:induction false} CounterIsTold(m: Meter, steps: seq<Step>)
    requires Run(m, steps) && Swap !in steps && m.counter < U32
    ensures End(m, steps).counter == (m.counter + Told(steps)) % U32
    decreases |steps|
  {
    if steps != [] {
      assert steps[0] in steps && Swap !in steps[1..];
      var next := Do(m, steps[0]);
      CounterIsTold(next, steps[1..]);
      if steps[0].RateLimit? {
        TruncatedAdd(m.counter, steps[0].n);
        TwiceTruncated(m.counter + steps[0].n, Told(steps[1..]));
      }
    }
  }

  lemma TwiceTruncated(low: nat, n: nat)
    ensures (low % U32 + n) % U32 == (low + n) % U32
  {}

  /** Until it is added to the total, what was swapped out stays as it was. */
  lemma {:induction false} TakenStays(m: Meter, steps: seq<Step>)
    requires Run(m, steps) && Swap !in steps && Accumulate !in steps
    ensures End(m, steps).taken == m.taken
    decreases |steps|
  {
    if steps != [] {
      assert steps[0] in steps && Swap !in steps[1..] && Accumulate !in steps[1..];
      TakenStays(Do(m, steps[0]), steps[1..]);
    }
  }

  lemma {:induction false} RateStays(m: Meter, steps: seq<Step>)
    requires Run(m, steps) && Publish !in steps
    ensures End(m, steps).perSecond == m.perSecond
    decreases |steps|
  {
    if steps != [] {
      assert steps[0] in steps && Publish !in steps[1..];
      RateStays(Do(m, steps[0]), steps[1..]);
    }
  }

  /** Two successive swaps: `period` lies between them, and `more` is whatever happens before the publication of what
      the second one took. */
  ghost predicate Published(m: Meter, period: seq<Step>, more: seq<Step>) {
    && m.counter == 0 && Run(m, period) && Swap !in period
    && var m1 := End(m, period);
       Enabled(m1, Swap) && Run(Do(m1, Swap), more) && Swap !in more && Accumulate !in more
  }

  /** From its publication to the next one the rate is a tenth, rounded down, of what RateLimit was told between the two
      swaps before it, modulo 2^32. */
  lemma RateIsOfTheLastPeriod(m: Meter, period: seq<Step>, more: seq<Step>, after: seq<Step>)
    requires Published(m, period, more)
    requires var m2 := End(Do(End(m, period), Swap), more);
             Enabled(m2, Publish) && Run(Do(m2, Publish), after) && Publish !in after
    ensures var m2 := End(Do(End(m, period), Swap), more);
            var rate := End(Do(m2, Publish), after).perSecond;
            10 * rate <= Told(period) % 0x1_0000_0000 < 10 * rate + 10
  {
    CounterIsTold(m, period);
    var m1 := End(m, period);
    TakenStays(Do(m1, Swap), more);
    RateStays(Do(End(Do(m1, Swap), more), Publish), after);
  }
}
