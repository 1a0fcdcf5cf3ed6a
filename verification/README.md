# Reactor, routing and test-selection model

A Dafny model of the core of a small C++ network server. It covers three parts:

- The readiness and timer bookkeeping of its event loop (`EventLoop`). This is a reactor. It keeps a table from descriptors to handlers (`m_map`) and a wait-set of descriptors to poll (`m_readfds`). It also keeps a scan bound (`m_maxfd`), a registration counter (`m_totalSelect`) and a timer set sorted by fire time (`timeSets`). Ready descriptors and due timers become tasks for a worker pool.
- The URL routing decision of the HTTP server (`HttpServer::add`, `error` and `process`).
- Ordered test registration and substring-filtered test selection in the test runner (`RegisterTest` and `RunAllTests`).

The model is sequential and functional. Each call into the loop is one atomic step on an immutable `EventLoop.Loop` record. The worker pool `m_pool` is an append-only log of `OnReceive(h)` / `OnTimer(h)` tasks. `::select` is an oracle: the caller supplies the set of ready descriptors, which must be a subset of the wait-set, and the event count `num`. The count is zero on a timeout and negative on an error. The clock is also a parameter. `fireTimer` reads it twice, as `now` for the due test and `now2` for the remaining wait. The source asserts are fatal aborts, so they become `requires` clauses.

Files:
- `wrappers.dfy`: `Option`.
- `time_event_set.dfy`: the timer set as a sorted sequence of `(handler, fireAt)` entries. It is generic in the handler type.
- `event_loop.dfy`: the loop state and every transition, including `run_once` and its dispatch loop in closed form.
- `event_loop_lemmas.dfy`: the properties that span several calls. These are invariant preservation, one-shot dispatch, prefix firing of timers, the attach/detach round trip and one timer scenario. It also holds one finding.
- `http_server.dfy`: routing as a pure function returning an outcome value.
- `tester.dfy`: registration, the `strstr` matcher and the selection loop.

## Notes on the code

- `detachHandler` does not cancel timers. `SocketHandler::detach` (include/EventLoop.h:272-279) does, before calling it. Both are modelled (`DetachHandler`, `Detach`).
- `run_once` (include/EventLoop.h:63-126) returns nothing, so a negative result from `::select` never reaches its caller. With `num < 0` the dispatch loop's `curnum < num` test fails at once and nothing is dispatched.
- TimeEventSet.h is not part of this model, so the order among entries with equal fire times is not known. `Insert` picks one rule, and no property depends on it.

## Model

| member | source | states |
|---|---|---|
| `EventLoop.Init` | include/EventLoop.h:38-43 | A new loop has an empty table, wait-set, timer set and task log, `m_maxfd = -1`, counter 0 and listen socket -1. It satisfies the invariant and the counter equals the wait-set size. |
| `EventLoop.AttachHandler` | include/EventLoop.h:128-136 | Requires fd in [0, FD_SETSIZE) and not attached. The table gains exactly `fd ↦ p`, older entries keep their handlers, and the wait-set, `m_maxfd`, counter, timers and task log are unchanged. |
| `EventLoop.ScanDown` | include/EventLoop.h:147-157 | The downward scan finds the highest registered descriptor at or below `i`. When it finds none, no descriptor in [0, i] is registered. |
| `EventLoop.DetachHandler` | include/EventLoop.h:138-162 | Requires fd attached to `p`. fd leaves the table and the wait-set, and other entries are unchanged. The counter drops by one iff fd was registered. `m_maxfd` changes only if it was fd. Then it becomes the highest registered descriptor below fd, or stays fd when there is none. |
| `EventLoop.RegisterRead` | include/EventLoop.h:188-198 | Requires fd attached. fd joins the wait-set and `m_maxfd` becomes `max(m_maxfd, fd)`. The counter goes up by one unconditionally, and nothing else changes. |
| `EventLoop.AddTimer` | include/EventLoop.h:172-174 | Adding a timer keeps the timer set sorted and adds exactly one entry, for the handler bound to fd. |
| `EventLoop.WaitTimerSecs` | include/EventLoop.h:165-175 | The timer set gains exactly the entry `(m_map[fd], now + seconds·10^6)` and stays sorted. Nothing else changes. |
| `EventLoop.WaitTimerDelta` | include/EventLoop.h:177-186 | The timer set gains exactly the entry `(m_map[fd], now + tms)` and stays sorted. Nothing else changes. |
| `EventLoop.ExistTimer` | include/EventLoop.h:244-250 | True iff some pending entry belongs to the handler bound to fd. |
| `EventLoop.DeleteTimer` | include/EventLoop.h:252-258 | Every entry of another handler keeps its multiplicity, and the timer set stays sorted. Nothing changes when the handler has no timer. Under remove-all, none of the handler's entries remains. Under remove-first, exactly the handler's earliest entry is removed. |
| `EventLoop.Detach` | include/EventLoop.h:272-279 | SocketHandler::detach removes fd from the table and the wait-set. Other table entries keep their handlers. The counter drops by one iff fd was registered, and `m_maxfd` is unchanged unless it was fd. If it was fd, it becomes the highest registered descriptor below fd, or stays fd when there is none. Without a pending timer the timer set is unchanged. Every timer entry of another handler keeps its multiplicity. Under remove-all none of the handler's own entries remains, and under remove-first exactly its earliest is removed. |
| `EventLoop.CancelTimer` | include/EventLoop.h:276-277 | deleteTimer runs only when existTimer reports a timer: without one the timer set is unchanged. Every entry of another handler keeps its multiplicity, and the set stays sorted. Under remove-all none of the handler's entries remains, and under remove-first exactly its earliest is removed. Nothing but the timer set changes. |
| `EventLoop.SetListenSocket` | include/EventLoop.h:302-307 | Only the listen-socket slot changes. |
| `EventLoop.FireTimer` | include/EventLoop.h:200-242 | Appends `OnTimer(h)` for exactly the maximal prefix of entries due at `now`, in sequence order, and keeps exactly the remaining suffix. The result is none iff no timer remains. Otherwise it is never negative: it is the exact wait to the earliest entry at `now2`, or 0 when that entry is already due. |
| `EventLoop.Take` | include/EventLoop.h:102 | The dispatch count cut: a prefix of the list that is empty for `n ≤ 0`, has length `n` when `n` fits, and is the whole list otherwise. |
| `EventLoop.Members` | include/EventLoop.h:102-104 | The scan of the fd set over [lo, hi] lists a descriptor iff it is a member of the set within the window. |
| `EventLoop.MembersAscending` | include/EventLoop.h:102-104 | The scan lists the members in strictly increasing order, so no descriptor is listed twice. |
| `EventLoop.DispatchedFrom` | include/EventLoop.h:101-104 | Every descriptor the loop finds ready from `lo` on was reported ready and lies in [lo, m_maxfd]. |
| `EventLoop.DispatchedFromIsPrefix` | include/EventLoop.h:101-104 | The loop `for (i = 0; i <= maxfd && curnum < num; i++)` dispatches exactly the first `num - curnum` ready members of [lo, m_maxfd], in ascending order. |
| `EventLoop.Dispatched` | include/EventLoop.h:101-104 | One poll dispatches the first `num` ready descriptors in [0, m_maxfd], in ascending order. |
| `EventLoop.TimerTasks` | include/EventLoop.h:222-227 | One `OnTimer` task per fired entry, for its handler, in entry order. |
| `EventLoop.DispatchOne` | include/EventLoop.h:105-113 | One ready descriptor: its handler's `OnReceive` task is appended. Unless it is the listen socket, it leaves the wait-set and the counter drops by one. Nothing else changes. |
| `EventLoop.DispatchFromFrame` | include/EventLoop.h:101-116 | The dispatch loop changes only the task log, the wait-set and the counter. |
| `EventLoop.DispatchFromPool` | include/EventLoop.h:101-108 | The dispatch loop appends exactly one `OnReceive` task per dispatched descriptor, in dispatch order, for the handler bound to it. |
| `EventLoop.DispatchFromWaitSet` | include/EventLoop.h:101-113 | The dispatch loop removes from the wait-set exactly the dispatched descriptors other than the listen socket, all of which were registered. |
| `EventLoop.DispatchFromCounter` | include/EventLoop.h:109-113 | The dispatch loop lowers the counter by exactly the number of descriptors it unregisters. |
| `EventLoop.ReceiveTasks` | include/EventLoop.h:108 | One `OnReceive` task per dispatched descriptor, for the handler bound to it, in dispatch order. |
| `EventLoop.DispatchFrom` | include/EventLoop.h:101-116 | The dispatch loop itself: it only shrinks the wait-set, only appends to the task log, and leaves the table and the listen socket alone. |
| `EventLoop.DispatchFromClosedForm` | include/EventLoop.h:101-116 | The post-poll loop appends one `OnReceive(m_map[fd])` per dispatched fd, in ascending order. It removes each dispatched fd except the listen socket from the wait-set, and decrements the counter once per removal. Nothing else changes. |
| `EventLoop.RecomputeMax` | include/EventLoop.h:118-125 | The rescan from `m_maxfd` down: no registered descriptor lies above the result up to `m_maxfd`. If some descriptor in [0, m_maxfd] is registered, the result is one of them; if none is, `m_maxfd` is kept. |
| `EventLoop.RunOnce` | include/EventLoop.h:63-126 | With quit set, nothing changes and nothing is polled. Otherwise the poll timeout is 5,000,000 µs when no timer is left, and `max(earliest deadline − now2, 0)` otherwise. The invariant holds afterwards and the wait-set only shrinks. A counter that matched the wait-set size still matches. `m_maxfd` is then the wait-set maximum if the set is non-empty and unchanged if it is empty. |
| `EventLoopLemmas.StepPreservesValid` | include/EventLoop.h:128-198 | Every call keeps the invariant: wait-set ⊆ table keys, every registered fd ≤ `m_maxfd`, `-1 ≤ m_maxfd < FD_SETSIZE`, timers sorted. |
| `EventLoopLemmas.StepPreservesCounted` | include/EventLoop.h:138-162 | `m_totalSelect == |wait-set|` survives every call except registerRead of an already registered fd. |
| `EventLoopLemmas.RegisterReadCounted` | include/EventLoop.h:188-198 | registerRead keeps the counter exact iff the fd was not already registered. |
| `EventLoopLemmas.RunPreservesValid` | include/EventLoop.h:128-198 | From a valid state, any sequence of calls whose assertions each hold when it is made is executable, and the invariant holds after it. This is `StepPreservesValid` applied call by call. |
| `EventLoopLemmas.StaysUnregistered` | include/EventLoop.h:188-198 | Only registerRead(fd) can put fd back into the wait-set. |
| `EventLoopLemmas.RunOnceEffect` | include/EventLoop.h:99-116 | A full cycle appends the due-timer tasks and then one `OnReceive` per dispatched fd, in ascending order. It leaves the timer suffix, unregisters the dispatched fds other than the listen socket and lowers the counter by that many. Every dispatched fd was ready and attached. |
| `EventLoopLemmas.RunOnceTimeout` | include/EventLoop.h:84-96 | The poll waits 5,000,000 µs when no timer remains. Otherwise it never waits past any remaining deadline unless the wait is 0. A positive wait ends exactly at the earliest deadline, and a zero wait happens only when that deadline has passed at `now2`. |
| `EventLoopLemmas.DispatchedAscending` | include/EventLoop.h:102-104 | Dispatched fds are strictly ascending, all ready, and within [0, m_maxfd]. |
| `EventLoopLemmas.NothingDispatchedWithoutEvents` | include/EventLoop.h:101-102 | With `num ≤ 0` (timeout or error), nothing is dispatched. |
| `EventLoopLemmas.WindowSplit` | include/EventLoop.h:102-104 | The members in [lo, hi] are lo, if it is a member, together with the members in [lo+1, hi], which do not include lo. |
| `EventLoopLemmas.MembersCount` | include/EventLoop.h:102-104 | The ascending scan lists as many descriptors as the set has members in the window. |
| `EventLoopLemmas.DispatchedCount` | include/EventLoop.h:101-116 | With `num = |ready|`, exactly the ready fds are dispatched. With `0 ≤ num ≤ |ready|`, exactly `num` are dispatched. With `num ≤ 0`, none are. |
| `EventLoopLemmas.OneShot` | include/EventLoop.h:109-113 | A dispatched fd other than the listen socket leaves the wait-set. No later poll can dispatch it again until registerRead(fd). |
| `EventLoopLemmas.ListenSocketStays` | include/EventLoop.h:109-113 | A registered listen socket stays registered through a cycle. |
| `EventLoopLemmas.QuitChangesNothing` | include/EventLoop.h:63-66 | With `m_quitFlag` set, run_once changes nothing. |
| `EventLoopLemmas.FireTimerFiresDue` | include/EventLoop.h:208-218 | On a sorted timer set, an entry fires iff its fire time is ≤ now. |
| `EventLoopLemmas.FireTimerNothingDue` | include/EventLoop.h:222-229 | With no due entry, firing changes no state. |
| `EventLoopLemmas.AttachThenDetach` | include/EventLoop.h:128-162 | Attaching then detaching a handler with no timer restores the table, wait-set, counter, timers and log. It also restores `m_maxfd` unless that was the fd. |
| `EventLoopLemmas.DetachThenAttach` | include/EventLoop.h:138-145 | After detach, the fd may be attached again to any handler. |
| `EventLoopLemmas.WaitTimerThenExists` | include/EventLoop.h:177-186 | After waitTimer, existTimer for that fd is true. |
| `EventLoopLemmas.TimerScenario` | include/EventLoop.h:200-229 | A timer set by a fresh handler, run at or after its deadline with no readiness, yields exactly one `OnTimer(h)` task and an empty timer set. The next poll falls back to 5 s. |
| `EventLoopLemmas.DetachHandlerNDebug` | include/EventLoop.h:145 | detachHandler as compiled with NDEBUG: the table is unchanged while the wait-set loses fd. |
| `EventLoopLemmas.DetachNDebugKeepsHandler` | include/EventLoop.h:145 | Under NDEBUG the detached handler stays in the table. The intended `DetachHandler` removes it. |
| `TimeEventSet.Insert` | include/EventLoop.h:174 | Insertion keeps fire-time order and adds exactly the new entry: the multiset grows by it. |
| `TimeEventSet.InsertBehindHead` | include/EventLoop.h:174 | Inserting an entry behind the head keeps fire-time order when the head is no later than the new entry. |
| `TimeEventSet.Exists` | include/EventLoop.h:249 | True iff some entry has the handler. |
| `TimeEventSet.DueCount` | include/EventLoop.h:208-218 | The length of the maximal prefix of entries due at `now`. Every entry before it is due, and the entry at it (if any) is not. |
| `TimeEventSet.NextTimeout` | include/EventLoop.h:231-241 | None iff the set is empty. Otherwise it is non-negative: the exact wait to the first entry, or 0 if that entry is already due. |
| `TimeEventSet.FirstIndexOf` | include/EventLoop.h:257 | Locates the earliest entry of a handler. It is none iff the handler has no entry. |
| `TimeEventSet.RemoveFirstOf` | include/EventLoop.h:257 | Remove-first reading: the multiset loses exactly the handler's earliest entry when one exists, and the set stays sorted. |
| `TimeEventSet.RemoveAllOf` | include/EventLoop.h:257 | Remove-all reading: the handler's entries go, every other entry keeps its multiplicity, and the set stays sorted. |
| `TimeEventSet.RemoveAllOfCount` | include/EventLoop.h:257 | One step of remove-all, for multiplicities: keeping the head exactly when it belongs to another handler drops the handler's entries and keeps every other entry's count. |
| `TimeEventSet.RemoveAllOfMembers` | include/EventLoop.h:257 | One step of remove-all, for membership: the result holds only other handlers' entries of the input, all of them, and is no longer than the input. |
| `TimeEventSet.RemoveAllOfSorted` | include/EventLoop.h:257 | One step of remove-all, for order: the result stays sorted. |
| `TimeEventSet.Remove` | include/EventLoop.h:257 | Either reading keeps every other handler's entry with its multiplicity, adds nothing, keeps the set sorted, and is a no-op when the handler has no entry. Remove-all leaves none of the handler's entries. Remove-first removes exactly the handler's earliest entry. |
| `TimeEventSet.DeleteAt` | include/EventLoop.h:257 | Deleting one position keeps every other entry and keeps the order. |
| `TimeEventSet.RemoveAllOfAbsent` | include/EventLoop.h:257 | Removing all entries of a handler that has none leaves the set unchanged. |
| `HttpServer.NewServer` | core/HttpServer.cpp:10 | A new server has no routes and no error handler. |
| `HttpServer.Add` | core/HttpServer.cpp:33-36 | The url maps to the new route, replacing any old one. Other routes and the error handler are unchanged. |
| `HttpServer.Error` | core/HttpServer.cpp:38-42 | Installs the error handler and sets the flag. Routes are unchanged. |
| `HttpServer.Process` | core/HttpServer.cpp:44-71 | Status 200 iff the query is routed, else 404. Exactly one action runs: the route's callback iff routed, the stored error callback iff unrouted with the flag set, `notFound` iff unrouted without it. |
| `HttpServer.AddThenProcess` | core/HttpServer.cpp:64-70 | After add(url, cb, arg), a request for url gets 200 and runs exactly (cb, arg). |
| `HttpServer.AddOverwrites` | core/HttpServer.cpp:33-36 | A later add for the same url wins. |
| `HttpServer.AddKeepsOtherQueries` | core/HttpServer.cpp:33-36 | add changes no other query's outcome. |
| `HttpServer.ErrorThenMiss` | core/HttpServer.cpp:52-58 | An unrouted query after error(cb, arg) gets 404 and runs the latest error handler, never `notFound`. |
| `HttpServer.AddAll` | core/HttpServer.cpp:33-36 | After a sequence of add calls, the routed urls are the old ones plus exactly the added ones. |
| `HttpServer.AddAllKeepsError` | core/HttpServer.cpp:33-36 | add calls never touch the error handler or its flag. |
| `HttpServer.FreshServerMiss` | core/HttpServer.cpp:59-62 | On a server that never had error() called, an unrouted query gets 404 and `notFound`. |
| `Tester.RegisterTest` | utils/Tester.cpp:19-31 | Returns true and appends the test after all earlier ones, which are unchanged. |
| `Tester.ContainsFrom` | utils/Tester.cpp:48 | True iff the pattern occurs at some position ≥ i. |
| `Tester.Contains` | utils/Tester.cpp:48 | `strstr` is non-null iff the pattern occurs somewhere in the name. |
| `Tester.FullName` | utils/Tester.cpp:45-47 | The name matched is `base`, then one '.', then `name`. |
| `Tester.SelectedIff` | utils/Tester.cpp:43-51 | A test runs iff there is no matcher or the matcher occurs at some position of `base + "." + name`. |
| `Tester.Select` | utils/Tester.cpp:40-52 | The run executes at most the registered tests. |
| `Tester.SelectMembers` | utils/Tester.cpp:40-52 | A test is run iff it is registered and there is no matcher or `base + "." + name` contains the matcher. |
| `Tester.RunAllTests` | utils/Tester.cpp:33-60 | Runs exactly the selected tests in registration order. The reported count is the number run, and the return value is always 0. |
| `Tester.SelectAppend` | utils/Tester.cpp:40-56 | Selection distributes over concatenation, so registration order is kept. |
| `Tester.NoMatcherRunsAll` | utils/Tester.cpp:43-52 | With no matcher, every test runs, in registration order. |
| `Tester.RegisterThenRun` | utils/Tester.cpp:19-31 | A newly registered test runs last, exactly when the matcher selects it. |
| `Tester.EmptyRegistry` | utils/Tester.cpp:37-38 | Nothing registered: nothing runs and the count is 0. |
| `Tester.SelectEmptyMatcher` | utils/Tester.cpp:48 | An empty matcher selects every test, since the empty string occurs in every name. |

## Findings

| source | as written | input that shows it | evidently intended | confidence | as-written member | corrected member |
|---|---|---|---|---|---|---|
| include/EventLoop.h:145 | `assert(m_map.erase(fd) == 1);` puts the erase inside an assertion. In a build with NDEBUG the erase is compiled out along with it. | Any `detachHandler(fd, p)` with fd attached, in an NDEBUG build. fd stays in `m_map` pointing at `p`, so the destructor would later delete `p` again. | The entry is erased unconditionally, and only the count is asserted. | medium: depends on the build defining NDEBUG; not executed | `EventLoopLemmas.DetachHandlerNDebug` (shown by `EventLoopLemmas.DetachNDebugKeepsHandler`) | `EventLoop.DetachHandler` |

## Left out

- utils/Thread.h (threads, mutexes, condition variables, atomics): concurrency only. The model is sequential.
- The `m_lock` critical sections and the race between the wait-set snapshot and the re-lock after `::select`. Every call is atomic, so the snapshot equals the wait-set when dispatch happens. The unused snapshot of `m_totalSelect` is not modelled.
- `::select`, `fd_set`, `timeval` conversion and `TimeStamp::now()`. These become the `ready`/`num` oracle and the clock readings `now`, `now2`. TimeStamp.h is not part of this model. A `TimeStamp` in `if (next)` is taken to be true iff it is not `none`, so a zero wait is passed to the poll as 0.
- `FD_ISSET` and `FD_SETSIZE`: the wait-set is a set of integers, and `FD_ISSET(i, &m_readfds) == true` (include/EventLoop.h:120, 151) is read as membership. That reading needs a C library whose `FD_ISSET` yields 0 or 1, as glibc's does. Where it yields the masked bit instead, `== true` holds only for some descriptors, and both downward rescans would skip the rest. `FD_SETSIZE` is fixed at glibc's 1024.
- EventPool internals: the pool is only the task log. Running tasks is not modelled.
- TimeEventSet.h internals: the tie rule of `insert` is a free choice (`Insert` keeps earlier equal entries first). Whether `remove` drops the first or every entry of a handler is kept open as `RemoveMode`.
- TimeEventSet.Remove: states that other handlers' entries keep their multiplicities and that the set stays sorted, not that entries with equal fire times keep their relative order, because the container's order among equal times is not known.
- Logging (`INFO`, `DEBUG`) and the destructor deleting the attached handlers: output and object lifetime.
- `runforever`: it loops `run_once` while `m_quitFlag` is clear, and nothing shown ever sets the flag. Finite runs of calls are modelled by `EventLoopLemmas.Run`.
- `SocketHandler::attach`, `waitTimer` and `registerRead` wrappers: they only assert the loop and socket are set, then delegate. They are the same as the loop functions in the model.
- EventLoop.WaitTimerSecs: does not model the 64-bit wrap of `second*1000000` or the `int` to `uint64_t` conversion in `SocketHandler::waitTimer`. The product is exact in the model.
- HttpServer constructor, `start`, `stop` and destructor: thread-pool and acceptor wiring. `HttpRequest` methods and user callbacks are recorded only as the outcome value.
- The return value of `HttpServer::process`: it is declared `bool` but never returns a value.
- Tester side effects: `getenv` becomes the `matcher` parameter. `fprintf` and calls to the test functions are not modelled. A null `tests` vector is the empty sequence.
