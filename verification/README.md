# AnyLink: a verified model

AnyLink is an SSL VPN server. This project models the parts of it that keep state or decode untrusted bytes, and proves
what they keep over every run, every interleaving and every input:

- `IpPool.dfy`, `IpPoolCalls.dfy`, `IpPoolRuns.dfy`: the address allocator, with its persistent table, active set, rotating
  cursor, leases, reservations and fallback. A class is proved equal to a specification; what one call answers and writes
  is read off the table before it; and whole runs are reasoned about.
- `LimitClient.dfy`: the client slots, one counter per user and one for all.
- `Lifecycle.dfy`: every interleaving of the sub-steps of `NewConn`, `Close`, `CloseSess` and `CloseCSess` over any number
  of sessions.
- `Crashes.dfy`, `Reservations.dfy`: which of those runs end in a nil dereference, and who holds a reserved address in them.
- `Session.dfy`: sessions, connections and DTLS connections as objects that are updated in place.
- `Sequential.dfy`: a `NewConn` of `Session.dfy` with nobody else at work is a run of the steps of `Lifecycle.dfy`.
- `LockOrder.dfy`: the lock programs of all calls of the session package under Go's `RWMutex`: why no set of threads
  deadlocks, and the one call after which they do.
- `Traffic.dfy`: the byte counters, with their 32-bit and 64-bit wrap-around.
- `LockManager.dfy`, `LockCounts.dfy`, `LockTable.dfy`: the brute-force lock manager, as values with its theorems (when
  locks end, what is counted and who is refused) and as heap-allocated states in maps, with the sweeper's deletion loops.
- `Login.dfy`, `Credentials.dfy`: the two-stage login with its store of pending logins, the replay cache and its sweeper;
  the one-time rule of section 5.2 of RFC 6238; and what stands behind every session.
- `Sni.dfy`: the ClientHello parser, with the language it accepts.
- `PortList.dfy`, `Acl.dfy`: port lists, access rules, their compiler and their matcher.
- `Framing.dfy`, `ControlFrames.dfy`: CSTP and DTLS frames, made and taken apart in place in pooled buffers, and what each
  type of frame leads to.
- `Octets.dfy`, `Wrappers.dfy`: bytes, and result types.

A method is tied to a specification function by its `ensures`; the properties are lemmas about the specification. Clocks,
random tokens, answers of database queries, the foreign codec, the TOTP function and network text parsers are parameters.
What one critical section of the code does is one step.

Properties that do not hold of the code are stated with the exact condition under which they do:

- A write of the allocator is refused by a unique column exactly when a client has no real MAC and a row of another
  address than the one it is about to get (the first reusable one of its user, else the nearest free one) names its MAC.
- After an acquire by a real MAC the row of the returned address names that client exactly unless, before the call, its own
  row could not be handed out again, no address was free and some login could be evicted: the fallback's write has no Id
  and changes nothing.
- A returned address lies between `IpLongMin` and `IpLongMax` exactly when these are in order. Otherwise it is `IpLongMin`,
  which is returned exactly when it is inactive and free, expired or evictable and the client's own row is not reserved.
- A failed group lookup keeps slot and address: `NewConn` then gives nothing back.
- The per-user counters add up to the global one exactly when no user called `__ALL__` holds a slot.
- Sessions and connections correspond in every reachable state exactly when `NewConn` calls on one session do not
  overlap: two that both install, and a close of the first, leave a live connection its session has forgotten.
- No deadlock is reachable exactly when nobody asks for the on-line list with sleeping sessions while a session that the
  search matches has no connection. That request panics on a nil field (`server/sessdata/online.go:95`) with the session's
  mutex locked; the panic is recovered, and the next statistics scan waits for the mutex with the session tables locked.
- `NewConn` looks at `IsActive` and then, without the mutex, at `CSess` (`server/sessdata/session.go:165-172`); `CloseSess`
  and `CloseCSess` look at `CSess` twice (443-447, 461-463). Such a call dereferences nil exactly when a `Close` takes the
  connection away between its two looks and no `NewConn` has installed another one by the second. While `NewConn` calls on
  one session do not overlap, any such `Close` is enough for `NewConn`; when they do, another one can come to the rescue.
- Sweeping the lock manager changes no answer before a key's next update exactly when, for each kind of key that is
  switched on, the reset window or the lock time is within the expiration.
- A lock lasts its full time exactly when that time is within the reset window and the expiration; the default settings
  (300 s against 10 s) are outside it.
- A code is good for one session per time step exactly when `CheckOtp` reads the clock twice within a step and a tick.
- A server name is found exactly when at least one byte follows it.
- The comment that access rules allow by default (`server/dbdata/group.go:31`) is wrong of the matcher: a packet that no
  rule of a non-empty list matches is dropped. The model follows the code.
- A CSTP buffer crashes its reader exactly when it holds a data frame with a length of 65528 or more, or a DISCONNECT of
  which fewer than nine bytes were read; a data frame of 2041 bytes or more is dropped otherwise. The CSTP writer panics
  exactly for a payload of more than 2040 bytes that is not sent compressed.

## Model

| member | source | states |
|---|---|---|
| IpPool.LoopMeaning | server/sessdata/ip_pool.go:210-308 | The search returns the first free address in cyclic order from the cursor without a row or with an unreserved expired one; failing that, the inactive unreserved row with the earliest login; and nothing exactly when every address is active, reserved or logged in not before now |
| IpPool.TwoScansFindTheNearest | server/sessdata/ip_pool.go:219-229 | The two scans together stop at the takable address that is nearest behind the cursor, if there is one |
| IpPool.TwoScansFindTheOldest | server/sessdata/ip_pool.go:301-304 | What the two scans remember is the evictable row with the earliest login in the whole range |
| IpPool.AcquireIsSafe | server/sessdata/ip_pool.go:96-202 | An acquire keeps the allocator valid (unique columns, cursor in range) and returns an address that was inactive, is now, and lies in the range, or changes no activity |
| IpPool.ReleaseIsSafe | server/sessdata/ip_pool.go:311-323 | A release keeps the allocator valid and frees exactly that address |
| IpPool.ReturnedInPoolExactlyWhenOrdered | server/sessdata/ip_pool.go:88-202 | An address that a call returns lies in the pool exactly when the configured bounds are in order, and is IpLongMin otherwise |
| IpPool.MisorderedReturnsExactlyWhen | server/sessdata/ip_pool.go:96-249 | With the bounds out of order a call returns IpLongMin exactly when that address is inactive and without a row, or with an unreserved one that expired or was logged in before now, and no reserved row names a real MAC; nothing otherwise |
| IpPool.MisorderedFirstClient | server/sessdata/ip_pool.go:30-61 | So the first client after such a start, over an empty table, is given IpLongMin, which is outside the pool |
| IpPool.RejectedExactlyWhen | server/sessdata/ip_pool.go:111-202 | Exactly when a table write breaks a unique column, told before the call: never for a real MAC, otherwise when a row of another address than the one to be taken names the MAC |
| IpPool.TakesWhatItWill | server/sessdata/ip_pool.go:170-201 | A client without a real MAC gets, outside the fallback, exactly the first reusable address of its user, else the nearest takable one |
| IpPool.FallbackExactlyWhen | server/sessdata/ip_pool.go:111-154 | A real MAC is served by the fallback exactly when, before the call, its row is neither renewable nor reserved, no address in the range is takable and some row is evictable |
| IpPool.RealMacRowExactlyUnlessFallsBack | server/sessdata/ip_pool.go:125-154 | After a successful acquire by a real MAC the row of the address names that MAC and user, with UniqueMac and the current time, exactly unless that held before the call |
| IpPool.AcquireFrame | server/sessdata/ip_pool.go:151-154 | An acquire changes no row but that of the returned address, and deletes only an unreserved row of its own MAC |
| IpPoolCalls.AnswerIs | server/sessdata/ip_pool.go:96-249 | The answer of every call, told from the table before it: the real MAC's own row, nothing for a reserved one that can not be used, the first reusable row of the user, else the nearest takable address, else the earliest login, the nearest of several, else nothing |
| IpPoolCalls.AcquireWrites | server/sessdata/ip_pool.go:125-200 | Every row after a call is as before, or is that of the returned address and names client, time and UniqueMac field by field, reserved only if it was the real MAC's own and reserved before |
| IpPoolCalls.ReturnedIsWritten | server/sessdata/ip_pool.go:273-298 | The returned address has such a row, outside the fallback and unless a unique column refused it; a new row is never reserved |
| IpPoolCalls.ReservedBefore | server/sessdata/ip_pool.go:270-300 | A row that is reserved after a call was in the table before it and was reserved |
| IpPoolCalls.OldRowIsGone | server/sessdata/ip_pool.go:145-154 | A real MAC that gets nothing, or an address by the fallback, is left without a row unless its row is reserved |
| IpPoolCalls.CursorIs | server/sessdata/ip_pool.go:217-232 | The cursor moves to the address a search found, back to the first one without, and not at all when a row is used again |
| IpPoolCalls.ReleaseWrites | server/sessdata/ip_pool.go:311-323 | A release writes the present time to that address's row, changes no other row, and frees that address only |
| IpPoolCalls.ReleasedIsFreeExactlyWhen | server/sessdata/ip_pool.go:284-321 | After a release an unreserved address can be taken by anybody exactly when the lease is over |
| IpPool.Allocator.constructor | server/sessdata/ip_pool.go:30-61 | Starts valid over any table, with nothing active and the cursor at the first address |
| IpPool.Allocator.LoopLong | server/sessdata/ip_pool.go:251-308 | The scan returns the first takable address and takes it, or changes nothing and remembers the oldest login; it terminates |
| IpPool.Allocator.TakeNew | server/sessdata/ip_pool.go:273-278 | An address without a row gets one, unless a unique column refuses it, and becomes active |
| IpPool.Allocator.TakeExpired | server/sessdata/ip_pool.go:290-300 | An expired row is rewritten for the client, unless refused, and its address becomes active |
| IpPool.Allocator.LoopIp | server/sessdata/ip_pool.go:210-249 | Two scans and the fallback compute the specified search, table and cursor |
| IpPool.Allocator.TakeFar | server/sessdata/ip_pool.go:234-244 | The fallback activates the remembered address; its write changes no row |
| IpPool.Allocator.AcquireIp | server/sessdata/ip_pool.go:96-202 | Address and new state of the whole call, for a real MAC and without one |
| IpPool.Allocator.ReleaseIp | server/sessdata/ip_pool.go:311-323 | The address is inactive and its row's login time is now |
| IpPool.Allocator.Set | server/dbdata/db_orm.go:46-50 | A write by Id that names no row or breaks a unique column changes nothing |
| IpPool.Allocator.Add | server/dbdata/db_orm.go:14-17 | An insert that breaks a unique column leaves the table as it was |
| IpPoolRuns.ReservationIsSafe | server/sessdata/ip_pool.go:129-154 | Over every run of acquires and releases a reserved row keeps its address, MAC and flag, and its address goes only to a call with that real MAC |
| IpPoolRuns.ReservationsAreOld | server/sessdata/ip_pool.go:96-323 | No run makes a reservation: what is reserved at its end was reserved at its start |
| IpPoolRuns.FreeAgainExactlyWhen | server/sessdata/ip_pool.go:284-321 | After a release and any run of other clients that does not hand the unreserved address out, anybody can take it exactly once the lease is over |
| IpPoolRuns.LeaseHeldWhileActive | server/sessdata/ip_pool.go:263-266 | While an address is active no other MAC takes its row, over any run |
| IpPoolRuns.LeaseHeldUntilItEnds | server/sessdata/ip_pool.go:289-300 | After a release the row stays with its MAC through every run of other clients within the lease |
| IpPoolRuns.LeaseComesBack | server/sessdata/ip_pool.go:111-143 | A leased address in the pool comes back to its MAC exactly when nobody is connected on it |
| IpPoolRuns.LeaseIsSticky | server/sessdata/ip_pool.go:111-143 | A real MAC that got an address outside the fallback and released it gets it again after any acquires and releases of others within the lease, exactly when it is inactive then |
| LimitClient.OpenIsExact | server/sessdata/limit_client.go:32-44 | A slot is given exactly when neither the total nor the user's share is used up, and the counters stay equal to the slots held |
| LimitClient.CloseIsExact | server/sessdata/limit_client.go:26-30 | Giving a held slot back keeps the counters exact |
| LimitClient.ChangesByOne | server/sessdata/limit_client.go:16-45 | On any counters: a slot given or given back changes the user's and the global counter by one, a refusal none, no other counter changes, and a new user is entered |
| LimitClient.UserCountersAddUp | server/sessdata/limit_client.go:20-44 | The user counters add up to the global counter exactly when no user named like the global key holds a slot |
| LimitClient.Limiter.LimitClient | server/sessdata/limit_client.go:16-45 | The counters and the answer of one call, a new user's zero entry included |
| Lifecycle.ResourcesAreExact | server/sessdata/session.go:163-249 | In every reachable state of every interleaving addresses and slots agree with the connections' phases and the allocator is valid |
| Lifecycle.ConservationOfAddressesAndSlots | server/sessdata/session.go:163-249 | The active set is exactly the addresses of pending, live and abandoned connections, one each and in the pool; the global and the user's counter are the numbers of slot holders and within the limits |
| Lifecycle.CountersAddUp | server/sessdata/limit_client.go:16-45 | In every reachable state of every interleaving the user counters add up to the global one exactly when nobody named like the global key holds a slot |
| Lifecycle.AddressStep | server/sessdata/session.go:180-192 | Each step keeps the active set equal to the addresses held, no two alike, also for the abandoned ones |
| Lifecycle.SlotStep | server/sessdata/session.go:175-184 | Each step keeps the counters equal to the slots held |
| Lifecycle.SessionsCorrespond | server/sessdata/session.go:221-249 | When NewConn calls on one session do not overlap: active exactly with a connection, which is its only live one; and dtlsIds is the inverse of sessions in any case |
| Lifecycle.SerialStep | server/sessdata/session.go:163-249 | Each step keeps that correspondence |
| Lifecycle.InverseStep | server/sessdata/session.go:156-159 | Registering and dropping a session, and every other step, keep the two tables inverse |
| Lifecycle.TablesChangeExactlyWhen | server/sessdata/session.go:156-464 | A session enters the tables exactly by NewSession and leaves them exactly by CloseSess of its token; CloseCSess and connections never change them |
| Lifecycle.CloseSparesOthers | server/sessdata/session.go:230-238 | Calling Close, first, again or late, disturbs no other live connection nor its session |
| Lifecycle.CloseStepsSpareOthers | server/sessdata/session.go:235-246 | No step of a Close, down to giving back address and slot, touches another live connection, its session or the activity of its address |
| Crashes.CrashExactlyWhen | server/sessdata/session.go:164-173 | In every interleaving a NewConn, CloseSess or CloseCSess between its looks has dereferenced nil, or will with the next look, exactly when a Close took the connection away after its first look and no NewConn has installed another since |
| Crashes.SerialCrashExactlyWhen | server/sessdata/session.go:164-173 | While NewConn calls on one session do not overlap, NewConn does so exactly when a Close came between its look at IsActive and its look at CSess |
| Crashes.OverlapRescues | server/sessdata/session.go:163-249 | When they may, there is a run in which a Close comes between and an overlapping NewConn installs in time, so that the call goes on |
| Crashes.CrashIsReachable | server/sessdata/session.go:163-249 | A run in which NewConn dereferences nil, in every system with room for two connections, overlapping calls or not |
| Crashes.CloserCrashIsReachable | server/sessdata/session.go:432-464 | And runs in which CloseSess and CloseCSess do, at any of their later looks |
| Crashes.AlwaysHoused | server/sessdata/session.go:221-235 | In every reachable state, whatever overlaps, a session is marked active exactly when it has a connection |
| Crashes.StepTracks | server/sessdata/session.go:163-249 | Each step of anybody: a call comes to face nil only by a Close between its looks; while it faces nil it stays between its looks or dereferences it |
| Crashes.LooksAtThePresent | server/sessdata/session.go:443-463 | A further look of CloseSess or CloseCSess finds the connection the session has at that moment, and Close is called on that one |
| Reservations.PoolRuns | server/sessdata/ip_pool.go:96-323 | In every interleaving the allocator goes through a run of acquires and releases, one after the other |
| Reservations.ReservationsStay | server/sessdata/ip_pool.go:129-154 | So in every interleaving exactly the rows reserved at the start are reserved, with their addresses and MACs |
| Reservations.ReservedAddressIsHeldByItsMac | server/sessdata/session.go:180-227 | And in every reachable state a reserved address is held only by connections that presented its MAC |
| Lifecycle.CorrespondExactlyWhenSerial | server/sessdata/session.go:163-249 | In every system with room for two connections the correspondence holds in all reachable states exactly when NewConn calls on one session do not overlap; the failing run is given |
| Lifecycle.OverlapLosesTheSuccessor | server/sessdata/session.go:171-173 | From any state in which two NewConn calls on one session are past their group lookup, installing both and closing the first leaves the second live and the session inactive without a connection |
| Session.Server.NewSession | server/sessdata/session.go:143-161 | The session is registered in both tables, which stay inverse |
| Session.Server.NewConn | server/sessdata/session.go:163-227 | What the former connection, the slot, the address and the group lookup make of all resources, and the connection installed |
| Session.Server.Close | server/sessdata/session.go:229-249 | The first call marks the session, closes the DTLS side and returns address and slot; every later one changes nothing |
| Sequential.NewConnAlone | server/sessdata/session.go:163-227 | With nobody else at work, what Session.Server.NewConn states of resources, connection and session is what a run of Lifecycle's steps ends with, on every return path |
| Sequential.CloseAlone | server/sessdata/session.go:229-249 | And the same of a Close |
| Session.Server.CloseSess | server/sessdata/session.go:432-451 | The session leaves both tables and its resources are returned |
| Session.Server.CloseCSess | server/sessdata/session.go:453-464 | The resources are returned and the tables stay |
| Session.Server.GetOnlineSess | server/sessdata/online.go:57-123 | Panics exactly when sleeping sessions are asked for and a session that the search matches has no connection; otherwise lists exactly the matching sessions, active or asked for |
| Session.Server.Dtls2Sess | server/sessdata/session.go:389-394 | Finds exactly the registered session with that DTLS id |
| Session.Server.Dtls2CSess | server/sessdata/session.go:396-408 | Finds a connection exactly when that session is active, and it is unclosed |
| Session.ConnSession.NewDtlsConn | server/sessdata/session.go:252-268 | A second DTLS connection is refused exactly while one is active |
| Session.DtlsSession.Close | server/sessdata/session.go:271-278 | Closes the channel once; later calls change nothing |
| Session.CloseUndoesNewConn | server/sessdata/session.go:175-192 | Close undoes NewConn on the active set and every counter; a NewConn that returned nothing kept nothing except exactly after a failed group lookup |
| Session.ClosedAddressIsFreeExactlyWhen | server/sessdata/session.go:229-249 | From the end of a connection on, anybody can take its unreserved address exactly when the lease is over |
| LockOrder.ThreadsKeepTheOrder | server/sessdata/session.go:103-115 | Any sequence of calls that do not panic takes locks only in the strict order and ends holding none |
| LockOrder.CloseIsNested | server/sessdata/session.go:229-249 | Close nests closeOnce, session, DTLS once and the leaf mutexes in order, on both paths of sync.Once |
| LockOrder.CloseTakes | server/sessdata/session.go:229-249 | The first Close holds closeOnce and the session while it takes the side channel's closeOnce, the allocator and the limiter, and gives the session and closeOnce back last |
| LockOrder.NewConnIsNested | server/sessdata/session.go:163-227 | NewConn holds no lock when it closes the former connection, takes a slot or an address, or installs |
| LockOrder.NewConnTakes | server/sessdata/session.go:163-227 | Which locks NewConn takes for reading and writing, by how far it gets |
| LockOrder.EachSessionIsNested | server/sessdata/statsinfo.go:28-49 | Visiting the sessions under the table lock keeps the order |
| LockOrder.VisitsAreNested | server/sessdata/online.go:64-120 | So does the on-line list while no visit panics |
| LockOrder.PathIsNested | server/sessdata/session.go:396-464 | Every call of the package but a panicking one keeps the order |
| LockOrder.ReachableIsDisciplined | server/sessdata/session.go:103-115 | In every reachable state of threads that make no panicking call each holds only locks below the next it takes |
| LockOrder.SomeThreadCanGo | server/sessdata/statsinfo.go:28-30 | No deadlock is reachable by such threads, with writers that keep new readers out: some unfinished thread can always take its next step |
| LockOrder.PanicLeavesOne | server/sessdata/online.go:62-95 | A panicking on-line list ends with the table lock given back and one session's mutex held |
| LockOrder.PanicThenStatistics | server/sessdata/statsinfo.go:28-30 | A run in which the statistics scan after it gets stuck and nothing can go on |
| LockOrder.DeadlockFreeExactlyWhen | server/sessdata/online.go:62-120 | With the statistics scan among the calls no deadlock is reachable exactly when no call asks for sleeping sessions while one that its search matches has no connection |
| Traffic.StepBalances | server/sessdata/session.go:303-310 | Each atomic operation keeps the balance of reported, counted, swapped-out, accumulated and overflowed bytes |
| Traffic.SmallPeriodsNeverWrap | server/sessdata/session.go:338-344 | The 32-bit counter never overflows exactly when every period stays below 2^32 bytes |
| Traffic.TrafficIsConserved | server/sessdata/session.go:291-312 | At every point of every interleaving the bytes reported are total plus counter plus the amount in between, exactly when no period reached 2^32 bytes and the total did not overflow |
| Traffic.RateIsOfTheLastPeriod | server/sessdata/session.go:303-308 | From its publication to the next one the rate is a tenth, rounded down, of what was counted between the two swaps before it, modulo 2^32, whatever is counted meanwhile |
| LockManager.DeadThroughIdleOps | server/admin/lockmanager.go:388-404 | Once a key's check is false it stays false through any checks and sweeps until the next update |
| LockManager.LocksExactlyAtTheThreshold | server/admin/lockmanager.go:374-385 | A fresh key whose failures are at most the reset time apart is unlocked through failure max - 1 and locks with failure max until the lock time |
| LockCounts.SuccessStartsOver | server/admin/lockmanager.go:374-385 | After a successful login on a key in any state, the key is unlocked, checks admit, exactly the failures since are counted, and number max of them locks |
| LockCounts.CheckClearsExactlyWhen | server/admin/lockmanager.go:388-404 | A check starts the counting over exactly after the end of a lock, or later than the reset window on a key never locked |
| LockCounts.CountsFromClear | server/admin/lockmanager.go:374-404 | From there close failures are counted one by one, do not lock below max, and number max locks until its time plus the lock time |
| LockCounts.LaterFailuresLockLonger | server/admin/lockmanager.go:374-385 | Every failure from number max on locks afresh from its own time |
| LockCounts.SuccessAdmits | server/admin/lockmanager.go:414-465 | After a successful login the user is admitted from that address, whatever came before, through any checks, sweeps and logins of others, until its next failure or the next from that address |
| LockCounts.RefusedAfterFailuresExactlyWhen | server/admin/lockmanager.go:414-465 | After any number of failed logins of a user from an address, exactly which requests are refused: of that address, that user and that pair, by the settings of each kind |
| LockCounts.CheckLockedLeaves | server/admin/lockmanager.go:414-450 | Only the entries that CheckLocked looks at, up to the first refusal, may expire |
| LockCounts.UpdateWrites | server/admin/lockmanager.go:318-371 | A login writes the entries of its address, its user and the pair with the rule of each kind, and no other |
| LockCounts.SweepKeepsExactly | server/admin/lockmanager.go:234-264 | In each space a sweep leaves exactly the entries that are locked, within lock time, reset window and expiration, unchanged |
| LockManager.AdmitsExactlyWhen | server/admin/lockmanager.go:414-450 | A request is admitted exactly when checks are off, it has no address, it is whitelisted, or none of the kinds that are on refuses; the empty user has no user kinds |
| LockManager.LockLastsExactlyWhen | server/admin/lockmanager.go:388-404 | Whatever checks and sweeps come in between, sweeps also with older times, checks refuse up to the lock time and admit after it, exactly when the lock time is within reset time and expiration |
| LockManager.SweepingIsInvisible | server/admin/lockmanager.go:234-264 | Sweeps inserted anywhere into a run of checks and logins, with current or older times, change no answer of CheckLocked to a request of whose address and user no login was recorded since the start, whatever others do |
| LockManager.SweepingBetweenUpdates | server/admin/lockmanager.go:234-264 | In particular they change no answer at all between two updates |
| LockManager.InvisibleExactlyWhen | server/admin/lockmanager.go:234-264 | Over all runs from the empty manager and with any settings, that holds exactly when for each kind of key that is switched on the reset window or the lock time is within the expiration; otherwise max failed logins of one user are followed by a sweep that frees the key |
| LockManager.TimedIsKept | server/admin/lockmanager.go:374-404 | The runs may start after any other, from the empty manager too: every run keeps a lock's end within the lock time of the last attempt, which is not in the future |
| LockManager.SweepKeepsSurvivors | server/admin/lockmanager.go:253-263 | Survivors of a sweep are unmodified, exactly the surviving pairs remain, and no user is left with an empty map |
| LockManager.NoEmptyUserIsKept | server/admin/lockmanager.go:350-371 | Checks and updates leave no user with an empty map either |
| LockTable.LockState.UpdateLockState | server/admin/lockmanager.go:374-385 | The new value of the state |
| LockTable.LockState.CheckLockState | server/admin/lockmanager.go:388-404 | The answer and the value it leaves, lazily expired |
| LockTable.LockState.Unlock | server/admin/lockmanager.go:407-411 | Counter, lock time and flag are reset, the last attempt stays |
| LockTable.Manager.UpdateGlobalIPLock | server/admin/lockmanager.go:318-329 | Exactly the address's entry is updated, a missing one from a fresh state |
| LockTable.Manager.UpdateGlobalUserLock | server/admin/lockmanager.go:332-347 | Exactly the user's entry is updated; the empty user has none |
| LockTable.Manager.UpdateUserIPLock | server/admin/lockmanager.go:350-371 | Exactly the pair's entry is updated; the empty user has none |
| LockTable.Manager.UpdateLoginStatus | server/admin/lockmanager.go:453-465 | All three spaces are updated, or nothing without an address |
| LockTable.Manager.CheckGlobalIPLock | server/admin/lockmanager.go:267-277 | The answer for the address, and only its entry may expire |
| LockTable.Manager.CheckGlobalUserLock | server/admin/lockmanager.go:280-293 | The answer for the user, and only its entry may expire |
| LockTable.Manager.CheckUserIPLock | server/admin/lockmanager.go:296-315 | The answer for the pair, and only its entry may expire |
| LockTable.Manager.CheckLocked | server/admin/lockmanager.go:414-450 | The answer over the spaces in turn up to the first refusal, and the entries that expired on the way |
| LockTable.Manager.CleanupExpiredLocks | server/admin/lockmanager.go:234-264 | The deletion loops over unordered keys leave exactly the surviving states, in place, and no emptied user |
| Login.OneSessionPerTimeStep | server/dbdata/user.go:188-206 | Over every run of concurrent logins, checks and sweeps a guarded user opens at most one session per 30-second step, and none without an accepted code |
| Login.OneTimeExactlyWhen | server/dbdata/user.go:170-206 | For a user who can log in, with a code inside the password or in its own window, that holds of all runs exactly when the two clock readings of CheckOtp are at most a step and a tick apart |
| Login.LongChecksReplay | server/handler/link_auth_otp.go:163-228 | Otherwise, for both places of the code: a run in which one code opens two sessions in one step |
| Login.GainKeeps | server/dbdata/user.go:188-206 | A code that is accepted is new in its step |
| Login.StepKeeps | server/handler/link_auth_otp.go:163-228 | Every step keeps used codes cached while their step lasts |
| Login.JudgeChecksCode | server/dbdata/user.go:122-132 | Without a separate window a guarded user gets past CheckUser only with a code inside the password that is accepted then |
| Credentials.LoginIsChecked | server/dbdata/user.go:99-148 | The local table accepts exactly an active row, a password of six characters or more that fits the row less a code behind it, and such a code only if right and new |
| Credentials.SessionsAreBacked | server/handler/link_auth.go:81-151 | Over every run each session and each pending login goes back to a request that the lock manager admitted and, with the local table, that presented the right password; a user with a second stage has a session only after that stage was admitted too |
| Credentials.StepIsBacked | server/handler/link_auth_otp.go:163-228 | Every step keeps that |
| Credentials.OverIsFinal | server/handler/link_auth.go:84-87 | A refused or finished request goes no further |
| Credentials.PendingIsDroppedExactlyWhen | server/handler/link_auth_otp.go:176-227 | A pending login is dropped exactly by an unreadable body, a refusal, or its session; a wrong code leaves it |
| Credentials.LocksFollowLogins | server/handler/link_auth_otp.go:197-223 | Over every run the locks are what the lock manager makes of one question before each stage, one failure for each wrong password or code, and one success for each session or pending login, in the order of their times |
| Credentials.CodeIsUsedUp | server/dbdata/user.go:188-206 | A code is accepted exactly if right and new, and is used up when it is looked at, right or wrong |
| Login.MoveKeeps | server/handler/link_auth_otp.go:223-226 | Opening the session moves the accepted code of its request to it, and loses none |
| Login.OtpCache.CheckOtp | server/dbdata/user.go:188-206 | The code is cached whether right or wrong, and accepted only if new and right |
| Login.OtpCache.Sweep | server/dbdata/user.go:174-183 | The deletion loop over unordered keys drops exactly the codes older than 60 seconds |
| Login.Handler.CheckLocalUser | server/dbdata/user.go:99-148 | Password and code are judged, and the cache left, as specified |
| Login.Handler.CreateSession | server/handler/link_auth_otp.go:113-161 | A session is opened and the lock states of the login are reset |
| Login.Handler.CheckUser | server/dbdata/user.go:71-96 | The local table judges, or another means |
| Login.Handler.Complete | server/handler/link_auth.go:122-151 | A pending login when OTP has its own window for the user, a session otherwise |
| Login.Handler.LinkAuth | server/handler/link_auth.go:81-151 | Alone, the handler makes a run of its protocol steps, on every branch |
| Login.Handler.LinkAuthOtp | server/handler/link_auth_otp.go:163-228 | Alone, the handler makes a run of its protocol steps, on every branch |
| Sni.SniNewParser | server/handler/payload_tcp_parser.go:31-112 | On every byte string the parser stays in bounds, terminates and returns the specified protocol and host |
| Sni.HostInExtensions | server/handler/payload_tcp_parser.go:76-104 | The cursor loop finds the first non-empty name, a server_name extension with an empty name being skipped twice |
| Sni.ValidDomainChar | server/handler/payload_tcp_parser.go:175-184 | True exactly for letters, digits, dots and dashes only |
| Sni.ParserInvertsEncoder | server/handler/payload_tcp_parser.go:31-112 | A ClientHello with any session id, ciphers, compressions and preceding extensions yields exactly its legal host |
| Sni.HostExactlyWhenEncoded | server/handler/payload_tcp_parser.go:31-112 | A host is returned exactly when the bytes are the encoding of a ClientHello with that legal host and at least one byte behind it |
| Sni.ParsedExactly | server/handler/payload_tcp_parser.go:31-112 | For all bytes: protocol 3 exactly with the first bytes of a ClientHello and 2 otherwise, and a host exactly when the ClientHello is complete and the host legal |
| Sni.LegalCharacters | server/handler/payload_tcp_parser.go:175-184 | A host may hold exactly the letters, the digits, dash and dot |
| Sni.OnTCP | server/handler/payload_tcp_parser.go:16-29 | The segment's data is skipped to by the data offset; the name parser goes first |
| Sni.OffsetInBytes | server/handler/payload_tcp_parser.go:18 | The masked and shifted byte is four times the header length in words |
| Sni.HelloBehindHeader | server/handler/payload_tcp_parser.go:16-29 | A ClientHello behind a TCP header with any options is named, whatever the HTTP parser would say |
| Sni.OtherSegments | server/handler/payload_tcp_parser.go:16-29 | A data offset past the end is plain TCP, and data that is no ClientHello is what the HTTP parser says |
| PortList.ParseExactlyWhenSpelled | server/dbdata/group.go:195-201 | A text is accepted exactly when it spells a list of ports and ranges, and then it spells only one |
| PortList.SetPorts | server/dbdata/group.go:195-229 | The map holds exactly the union of the ranges; otherwise the error is the format, or the first number above 65535 |
| PortList.AddPart | server/dbdata/group.go:197-223 | One part adds exactly the ports it covers, none for a range that runs backwards |
| PortList.ParseUint16 | server/dbdata/group.go:204-211 | The decimal value, or an error above 65535 |
| PortList.NoBadExactlyWhenInRange | server/dbdata/group.go:204-221 | No number is refused exactly when all are ports |
| PortList.FirstBadIsFirst | server/dbdata/group.go:204-221 | The number an error names is the first above 65535, the start of a range before its end |
| PortList.PrintedRangesParse | server/dbdata/group.go:195-225 | Printing any list of ports and ranges and parsing it gives their union, with no error |
| Acl.Group.SetLinkAcl | server/dbdata/group.go:164-234 | Every rule with a network is compiled, in order, or the first error is returned and the rules stay |
| Acl.Group.CheckLinkAcl | server/handler/payload.go:70-130 | Passes exactly: other traffic, no rules, queries to the group's name servers, or a first hit that allows |
| Acl.CompilationPreservesMeaning | server/handler/payload.go:70-130 | For every packet the matcher on compiled rules decides as first match over the rules as written: protocol text, address interval, port list, listed port 0, ICMP without ports |
| Acl.CompiledRuleHits | server/dbdata/group.go:171-226 | A compiled rule hits a packet exactly when the rule as written applies to it |
| Acl.ExemptExactlyWhen | server/handler/payload.go:70-91 | Which packets no rule decides: other traffic, a group without rules, and port 53 of the group's name servers whatever the rules say; for all others the first rule that applies does |
| Acl.AppliesExactlyWhen | server/handler/payload.go:108-126 | To which packets a rule applies, with the protocol numbers: 6, 17 and 1, which has no ports |
| Acl.ErrorIs | server/dbdata/group.go:171-227 | A rule's error is its network, then the format of its ports, then the first number that is no port |
| Acl.ContainsInterval | server/dbdata/group.go:348-358 | A network contains exactly the interval from its first address over its host bits |
| Framing.Payload.EncodeCstp | server/handler/link_cstp.go:141-175 | The frame made in place, compressed or not, control frames, and when extending the slice panics |
| Framing.Shift | server/handler/link_cstp.go:161-169 | Shifting by eight in place and writing the header gives exactly the frame of the payload |
| Framing.Payload.DecodeCstp | server/handler/link_cstp.go:57-117 | What a reader makes of every buffer: the delivered bytes, replies, drops and crashes |
| Framing.Payload.UnpackCstp | server/handler/link_cstp.go:84-98 | The compressed case up to its fallthrough leaves the frame of the uncompressed data in the buffer |
| Framing.Payload.DeliverCstp | server/handler/link_cstp.go:99-110 | The bytes behind the header by its length, added modulo 2^16 |
| Framing.Payload.EncodeDtls | server/handler/link_dtls.go:124-159 | The DTLS frame made in place on every branch |
| Framing.Payload.DecodeDtls | server/handler/link_dtls.go:56-100 | The DTLS payload taken out in place on every branch |
| Framing.Payload.UnpackDtls | server/handler/link_dtls.go:76-90 | The compressed case up to its fallthrough leaves the uncompressed data behind the type byte |
| Framing.Payload.Append | server/handler/link_dtls.go:85 | Appending stays in the buffer exactly when it fits, and otherwise moves to another one |
| Framing.Move | server/handler/link_cstp.go:108 | Copying within one buffer is right for overlapping parts in both directions |
| Framing.CstpRoundTrip | server/handler/link_cstp.go:145-170 | What one end sends the other delivers unchanged, compressed or not and behind any leftovers, exactly for at most 2040 bytes; the writer panics exactly for a longer one that does not go compressed |
| Framing.DtlsRoundTrip | server/handler/link_dtls.go:129-151 | The same over DTLS up to 2047 bytes, and when the writer panics |
| Framing.DtlsReplyEchoes | server/handler/link_dtls.go:64-71 | A dead-peer request is answered with its own contents |
| ControlFrames.CstpRequestIsAnswered | server/handler/link_cstp.go:75-79 | A dead-peer request over CSTP, whatever it holds and whatever is left in the buffer, is answered with the bytes 53 54 46 01 00 00 04 00, which tell the peer that the other end is alive |
| ControlFrames.DtlsRequestIsAnswered | server/handler/link_dtls.go:64-71 | Over DTLS it comes back with its contents and type 4 |
| ControlFrames.CstpTypes | server/handler/link_cstp.go:57-117 | What each type byte leads to over CSTP, with the numbers; all but six types are dropped |
| ControlFrames.DtlsTypes | server/handler/link_dtls.go:56-100 | The same over DTLS, and that only an empty read of type 0 crashes |
| ControlFrames.CstpBytes | server/handler/link_cstp.go:145-170 | The bytes of a frame: STF, 1, the length with the high byte first, the type, 0, the payload |
| ControlFrames.CstpControl | server/handler/link_cstp.go:171-175 | A control frame is a bare header of its type |
| ControlFrames.DtlsControl | server/handler/link_dtls.go:152-159 | Over DTLS a bare type, an answer overwriting the first byte of its contents and panicking without any |
| ControlFrames.DataIsSentExactly | server/handler/link_cstp.go:145-170 | When data goes compressed, when plain, and when the writer panics, for both tunnels |
| Framing.CstpLengths | server/handler/link_cstp.go:101-110 | Exactly which length fields of data frames are delivered and which crash the reader |
| Framing.CstpCrashes | server/handler/link_cstp.go:57-117 | Of all buffers, exactly data frames with a length from 65528 on and DISCONNECT reads of fewer than nine bytes crash the reader |
| Framing.Pool.GetPayload | server/handler/pool.go:32-35 | A payload of type 0 and full length, that nothing in the pool shares |
| Framing.Pool.PutPayload | server/handler/pool.go:37-48 | Only payloads of the right capacity return, reset; the pool's invariant is kept |
| Framing.Pool.ReadCstp | server/handler/link_cstp.go:43-117 | A read into a reused buffer is decoded as if the rest were arbitrary, and the pool's invariant is kept |
| Framing.Pool.WriteCstp | server/handler/link_cstp.go:141-183 | What goes out is the frame, and the payload returns to the pool |

## Left out

- Errors of the database in the allocator and the login: every query is answered, found or not found.
- The order of a query's answer: the rows of a user are a parameter, at most 30 of them.
- Times of one call of the allocator are one reading of the clock, and the table keeps times exactly.
- Addresses are numbers and their texts canonical; MAC addresses are not empty.
- The remaining fields that CreateSession fills, MAC parsing and the identifiers hashed in place of a missing MAC.
- RADIUS, LDAP and other foreign checks of passwords: their answer is a parameter.
- Overlapping NewConn calls on one session, for the correspondence of sessions and connections only; addresses and slots
  cover them.
- How an address is found on the whitelist (the answer is part of a request), and the administrator's requests to list
  and unlock keys; unlocking one state is modelled.
- The ticker of the traffic counters and the speed limiter: only the counters are modelled.
- Each of CheckLocked and UpdateLoginStatus is one step, although each key space has its own section of the mutex, and
  requests take effect in the order of the times they read.
- Iteration orders of maps are arbitrary in the deletion loops.
- CompilationPreservesMeaning: reads the rules' address texts through a parser that is a parameter, which reads IPv4-mapped networks such as ::ffff:10.0.0.0/104 as IPv4; other IPv6 networks contain no IPv4 address.
- Routes, name servers, split domains and authentication settings in SetGroup.
- The HTTP request parser, a parameter of OnTCP; the regular-expression name parser and the second HTTP parser are unused.
- CstpRoundTrip: takes the codec to find the end of its own blocks; the LZS algorithm is not part of this model.
- Reads that bring part of a frame or several frames at once: the code looks at one buffer per read, and so does the model.
- The audit log's key building and interval de-duplication, whose workers race on shared keys.
- Devices, handshakes, web pages, mail, certificates and the configuration.
