/**
  Properties of the reactor model across calls: every call keeps the structural
  invariant, readiness dispatch is one-shot, and due timers fire as a prefix.
*/
module EventLoopLemmas {
  import opened Wrappers
  import TimeEventSet
  import E = EventLoop

  /** One call into the loop, with the clock readings and poll results it consumes. */
  datatype Call =
    | Attach(fd: int, h: E.Handler)
    | Detach(fd: int, h: E.Handler, mode: TimeEventSet.RemoveMode)
    | RegisterRead(fd: int)
    | WaitTimerSecs(fd: int, seconds: nat, now: int)
    | WaitTimerDelta(fd: int, delta: int, now: int)
    | DeleteTimer(fd: int, mode: TimeEventSet.RemoveMode)
    | SetListenSocket(fd: int)
    | RunOnce(now: int, now2: int, ready: set<int>, num: int)

  /** The assertions each call makes of the state, and the poll oracle's promise. */
  ghost predicate Enabled(s: E.Loop, c: Call)
  {
    match c
    case Attach(fd, _) => E.InRange(fd) && fd !in s.table
    case Detach(fd, h, _) => E.InRange(fd) && fd in s.table && s.table[fd] == h
    case RegisterRead(fd) => E.InRange(fd) && fd in s.table
    case WaitTimerSecs(fd, _, _) => E.InRange(fd) && fd in s.table
    case WaitTimerDelta(fd, _, _) => E.InRange(fd) && fd in s.table
    case DeleteTimer(fd, _) => E.InRange(fd) && fd in s.table
    case SetListenSocket(_) => true
    case RunOnce(_, _, ready, _) => ready <= s.readfds
  }

  function Step(s: E.Loop, c: Call): E.Loop
    requires E.Valid(s) && Enabled(s, c)
  {
    match c
    case Attach(fd, h) => E.AttachHandler(s, fd, h)
    case Detach(fd, h, mode) => E.Detach(s, fd, h, mode)
    case RegisterRead(fd) => E.RegisterRead(s, fd)
    case WaitTimerSecs(fd, seconds, now) => E.WaitTimerSecs(s, fd, seconds, now)
    case WaitTimerDelta(fd, delta, now) => E.WaitTimerDelta(s, fd, delta, now)
    case DeleteTimer(fd, mode) => E.DeleteTimer(s, fd, mode)
    case SetListenSocket(fd) => E.SetListenSocket(s, fd)
    case RunOnce(now, now2, ready, num) => E.RunOnce(s, now, now2, ready, num).loop
  }

  /** Every call keeps the invariant: wait-set within the table, bounded by m_maxfd, timers sorted. */
  lemma StepPreservesValid(s: E.Loop, c: Call)
    requires E.Valid(s) && Enabled(s, c)
    ensures E.Valid(Step(s, c))
  {
    match c
    case Attach(fd, h) =>
      assert Step(s, c) == E.AttachHandler(s, fd, h);
    case Detach(fd, h, mode) =>
      DetachPreservesValid(s, fd, h, mode);
      assert Step(s, c) == E.Detach(s, fd, h, mode);
    case RegisterRead(fd) =>
      assert Step(s, c) == E.RegisterRead(s, fd);
    case WaitTimerSecs(fd, seconds, now) =>
      assert Step(s, c) == E.WaitTimerSecs(s, fd, seconds, now);
    case WaitTimerDelta(fd, delta, now) =>
      assert Step(s, c) == E.WaitTimerDelta(s, fd, delta, now);
    case DeleteTimer(fd, mode) =>
      assert Step(s, c) == E.DeleteTimer(s, fd, mode);
    case SetListenSocket(fd) =>
      assert Step(s, c) == E.SetListenSocket(s, fd);
    case RunOnce(now, now2, ready, num) =>
      assert Step(s, c) == E.RunOnce(s, now, now2, ready, num).loop;
  }

  /** SocketHandler::detach keeps the invariant: its timer cancellation does, and so does detachHandler. */
  lemma DetachPreservesValid(s: E.Loop, fd: int, h: E.Handler, mode: TimeEventSet.RemoveMode)
    requires E.Valid(s) && E.InRange(fd) && fd in s.table && s.table[fd] == h
    ensures E.Valid(E.Detach(s, fd, h, mode))
  {
    var s1 := if E.ExistTimer(s, fd) then E.DeleteTimer(s, fd, mode) else s;
    assert s1.(timers := s.timers) == s;
    assert TimeEventSet.Sorted(s1.timers);
    DetachHandlerPreservesValid(s1, fd, h);
    assert E.Detach(s, fd, h, mode) == E.DetachHandler(s1, fd, h);
  }

  /** detachHandler keeps the invariant; the rescan keeps m_maxfd above every remaining registration. */
  lemma DetachHandlerPreservesValid(s: E.Loop, fd: int, h: E.Handler)
    requires E.Valid(s) && E.InRange(fd) && fd in s.table && s.table[fd] == h
    ensures E.Valid(E.DetachHandler(s, fd, h))
  {
    var r := E.DetachHandler(s, fd, h);
    assert r.maxfd == s.maxfd || E.ScanDown(s.readfds, fd - 1).Some?;
  }

  /**
    The counter equals the wait-set's size after every call except registerRead of
    a descriptor that is already registered.
  */
  lemma StepPreservesCounted(s: E.Loop, c: Call)
    requires E.Valid(s) && Enabled(s, c) && E.Counted(s)
    requires !(c.RegisterRead? && c.fd in s.readfds)
    ensures E.Counted(Step(s, c))
  {
    match c
    case Attach(fd, h) =>
      assert Step(s, c) == E.AttachHandler(s, fd, h);
    case Detach(fd, h, mode) =>
      var s1 := if E.ExistTimer(s, fd) then E.DeleteTimer(s, fd, mode) else s;
      assert E.Counted(s1);
      assert Step(s, c) == E.DetachHandler(s1, fd, h);
    case RegisterRead(fd) =>
      assert Step(s, c) == E.RegisterRead(s, fd);
    case WaitTimerSecs(fd, seconds, now) =>
      assert Step(s, c) == E.WaitTimerSecs(s, fd, seconds, now);
    case WaitTimerDelta(fd, delta, now) =>
      assert Step(s, c) == E.WaitTimerDelta(s, fd, delta, now);
    case DeleteTimer(fd, mode) =>
      assert Step(s, c) == E.DeleteTimer(s, fd, mode);
    case SetListenSocket(fd) =>
      assert Step(s, c) == E.SetListenSocket(s, fd);
    case RunOnce(now, now2, ready, num) =>
      assert Step(s, c) == E.RunOnce(s, now, now2, ready, num).loop;
  }

  /** registerRead keeps the counter exact if and only if the descriptor was not registered. */
  lemma RegisterReadCounted(s: E.Loop, fd: int)
    requires E.Counted(s) && E.InRange(fd) && fd in s.table
    ensures E.Counted(E.RegisterRead(s, fd)) <==> fd !in s.readfds
  {
  }

  /** A sequence of calls each of whose assertions hold when it is made. */
  ghost predicate Executable(s: E.Loop, cs: seq<Call>)
    decreases |cs|
  {
    E.Valid(s) && (|cs| == 0 || (Enabled(s, cs[0]) && Executable(Step(s, cs[0]), cs[1..])))
  }

  function Run(s: E.Loop, cs: seq<Call>): E.Loop
    requires Executable(s, cs)
    decreases |cs|
  {
    if |cs| == 0 then s else Run(Step(s, cs[0]), cs[1..])
  }

  /**
    Each call's assertions hold when it is made, as far as the calls before it
    leave a valid state to make it in. Unlike `Executable`, this asks nothing of
    the states' invariant.
  */
  ghost predicate CallsEnabled(s: E.Loop, cs: seq<Call>)
    decreases |cs|
  {
    |cs| == 0 || (Enabled(s, cs[0]) && (E.Valid(s) ==> CallsEnabled(Step(s, cs[0]), cs[1..])))
  }

  /**
    From a valid state, a sequence of calls whose assertions hold in turn is
    executable, and the invariant holds after it.
  */
  lemma {:induction false} RunPreservesValid(s: E.Loop, cs: seq<Call>)
    requires E.Valid(s) && CallsEnabled(s, cs)
    decreases |cs|
    ensures Executable(s, cs) && E.Valid(Run(s, cs))
  {
    if |cs| > 0 {
      StepPreservesValid(s, cs[0]);
      RunPreservesValid(Step(s, cs[0]), cs[1..]);
    }
  }

  /** No call except registerRead of `fd` puts `fd` into the wait-set. */
  lemma {:induction false} StaysUnregistered(s: E.Loop, cs: seq<Call>, fd: int)
    requires Executable(s, cs)
    requires fd !in s.readfds
    requires forall i :: 0 <= i < |cs| ==> cs[i] != RegisterRead(fd)
    decreases |cs|
    ensures fd !in Run(s, cs).readfds
  {
    if |cs| > 0 {
      assert cs[0] != RegisterRead(fd);
      StaysUnregistered(Step(s, cs[0]), cs[1..], fd);
    }
  }

  /**
    What one cycle does, in closed form: it fires the due prefix of the timers,
    then submits an on-readable task per dispatched descriptor in ascending order,
    and unregisters every dispatched descriptor except the listen socket.
  */
  lemma RunOnceEffect(s: E.Loop, now: int, now2: int, ready: set<int>, num: int)
    requires E.Valid(s) && !s.quit && ready <= s.readfds
    ensures var r := E.RunOnce(s, now, now2, ready, num).loop;
      var k := TimeEventSet.DueCount(s.timers, now);
      var d := E.Dispatched(s.maxfd, ready, num);
      && (forall i :: 0 <= i < |d| ==> d[i] in s.table && d[i] in ready)
      && r.pool == s.pool + E.TimerTasks(s.timers[..k]) + E.ReceiveTasks(s.table, d)
      && r.timers == s.timers[k..]
      && r.readfds == s.readfds - E.Removed(d, s.listenSocket)
      && r.totalSelect == s.totalSelect - |E.Removed(d, s.listenSocket)|
  {
    var s1 := E.FireTimer(s, now, now2).loop;
    E.DispatchFromClosedForm(s1, ready, 0, s1.maxfd, 0, num);
    var d := E.Dispatched(s.maxfd, ready, num);
    assert forall i :: 0 <= i < |d| ==> d[i] in E.Members(ready, 0, s.maxfd);
  }

  /** The timeout handed to the poll: five seconds with no timer left, else the wait until the earliest one. */
  lemma RunOnceTimeout(s: E.Loop, now: int, now2: int, ready: set<int>, num: int)
    requires E.Valid(s) && !s.quit && ready <= s.readfds
    ensures var r := E.RunOnce(s, now, now2, ready, num);
      && (r.loop.timers == [] ==> r.timeout == Some(E.SELECT_FALLBACK_USECS))
      && (r.loop.timers != [] ==>
            forall i :: 0 <= i < |r.loop.timers| ==> r.timeout.value == 0 || now2 + r.timeout.value <= r.loop.timers[i].fireAt)
      && (r.loop.timers != [] && 0 < r.timeout.value ==> now2 + r.timeout.value == r.loop.timers[0].fireAt)
      && (r.loop.timers != [] && r.timeout.value == 0 ==> r.loop.timers[0].fireAt <= now2)
  {
    var f := E.FireTimer(s, now, now2);
    E.DispatchFromClosedForm(f.loop, ready, 0, f.loop.maxfd, 0, num);
    var r := E.RunOnce(s, now, now2, ready, num);
    assert r.loop.timers == f.loop.timers;
    assert r.timeout == Some(f.next.GetOr(E.SELECT_FALLBACK_USECS));
    var k := |s.timers| - |f.loop.timers|;
    assert forall i :: 0 <= i < |f.loop.timers| ==> f.loop.timers[i] == s.timers[k + i];
  }

  /** Strictly ascending and drawn from `ready`: the order in which descriptors are dispatched. */
  lemma DispatchedAscending(maxfd: int, ready: set<int>, num: int)
    ensures var d := E.Dispatched(maxfd, ready, num);
      && (forall i, j :: 0 <= i < j < |d| ==> d[i] < d[j])
      && (forall i :: 0 <= i < |d| ==> d[i] in ready && 0 <= d[i] <= maxfd)
  {
    var m := E.Members(ready, 0, maxfd);
    E.MembersAscending(ready, 0, maxfd);
    var d := E.Dispatched(maxfd, ready, num);
    assert d == E.Take(m, num);
    assert |d| <= |m| && d == m[..|d|];
    forall i, j | 0 <= i < j < |d|
      ensures d[i] < d[j]
    {
      assert d[i] == m[i] && d[j] == m[j];
      assert m[i] < m[j];
    }
    forall i | 0 <= i < |d|
      ensures d[i] in ready && 0 <= d[i] <= maxfd
    {
      assert d[i] == m[i] && m[i] in m;
    }
  }

  /** On timeout or error (no events) nothing is dispatched. */
  lemma NothingDispatchedWithoutEvents(maxfd: int, ready: set<int>, num: int)
    requires num <= 0
    ensures E.Dispatched(maxfd, ready, num) == []
  {
  }

  /** The members of `fds` within [lo, hi], as a set. */
  function Window(fds: set<int>, lo: int, hi: int): set<int>
  {
    set x | x in fds && lo <= x <= hi
  }

  /** Splitting the lowest position off a window. */
  lemma WindowSplit(fds: set<int>, lo: int, hi: int)
    requires lo <= hi
    ensures lo !in Window(fds, lo + 1, hi)
    ensures Window(fds, lo, hi) == (if lo in fds then {lo} else {}) + Window(fds, lo + 1, hi)
  {
  }

  /** The number of members of `fds` within [lo, hi]. */
  lemma {:induction false} MembersCount(fds: set<int>, lo: int, hi: int)
    decreases hi - lo + 1
    ensures |E.Members(fds, lo, hi)| == |Window(fds, lo, hi)|
  {
    if lo > hi {
      assert Window(fds, lo, hi) == {};
    } else {
      MembersCount(fds, lo + 1, hi);
      WindowSplit(fds, lo, hi);
      E.MembersUnfold(fds, lo, hi);
    }
  }

  /**
    When the poll reports every ready descriptor (num == |ready|), each of them is
    dispatched exactly once; with a smaller count, exactly that many.
  */
  lemma DispatchedCount(maxfd: int, ready: set<int>, num: int)
    requires forall x :: x in ready ==> 0 <= x <= maxfd
    ensures num <= 0 ==> |E.Dispatched(maxfd, ready, num)| == 0
    ensures 0 <= num <= |ready| ==> |E.Dispatched(maxfd, ready, num)| == num
    ensures num >= |ready| ==> forall x :: x in E.Dispatched(maxfd, ready, num) <==> x in ready
  {
    MembersCount(ready, 0, maxfd);
    assert Window(ready, 0, maxfd) == ready;
  }

  /**
    One-shot dispatch: a descriptor other than the listen socket that one cycle
    dispatched is out of the wait-set afterwards, stays out through any calls
    that do not re-register it, and so no later poll can report or dispatch it.
  */
  lemma OneShot(s: E.Loop, now: int, now2: int, ready: set<int>, num: int, fd: int,
                cs: seq<Call>, ready2: set<int>, num2: int)
    requires E.Valid(s) && !s.quit && ready <= s.readfds
    requires fd in E.Dispatched(s.maxfd, ready, num) && fd != s.listenSocket
    requires Executable(E.RunOnce(s, now, now2, ready, num).loop, cs)
    requires forall i :: 0 <= i < |cs| ==> cs[i] != RegisterRead(fd)
    requires ready2 <= Run(E.RunOnce(s, now, now2, ready, num).loop, cs).readfds
    ensures fd !in E.RunOnce(s, now, now2, ready, num).loop.readfds
    ensures fd !in E.Dispatched(Run(E.RunOnce(s, now, now2, ready, num).loop, cs).maxfd, ready2, num2)
  {
    RunOnceEffect(s, now, now2, ready, num);
    var s1 := E.RunOnce(s, now, now2, ready, num).loop;
    StaysUnregistered(s1, cs, fd);
    DispatchedAscending(Run(s1, cs).maxfd, ready2, num2);
  }

  /** The listen socket is exempt: dispatching it leaves it registered. */
  lemma ListenSocketStays(s: E.Loop, now: int, now2: int, ready: set<int>, num: int)
    requires E.Valid(s) && !s.quit && ready <= s.readfds
    requires s.listenSocket in s.readfds
    ensures s.listenSocket in E.RunOnce(s, now, now2, ready, num).loop.readfds
  {
    RunOnceEffect(s, now, now2, ready, num);
  }

  /** With quit set a cycle does nothing. */
  lemma QuitChangesNothing(s: E.Loop, now: int, now2: int, ready: set<int>, num: int)
    requires E.Valid(s) && s.quit && ready <= s.readfds
    ensures E.RunOnce(s, now, now2, ready, num).loop == s
  {
  }

  /** On a sorted timer set, an entry fires exactly when it is due. */
  lemma FireTimerFiresDue(s: E.Loop, now: int, now2: int)
    requires TimeEventSet.Sorted(s.timers)
    ensures var k := |s.timers| - |E.FireTimer(s, now, now2).loop.timers|;
      forall i :: 0 <= i < |s.timers| ==> (i < k <==> s.timers[i].fireAt <= now)
  {
  }

  /** With nothing due, firing changes no state. */
  lemma FireTimerNothingDue(s: E.Loop, now: int, now2: int)
    requires |s.timers| == 0 || now < s.timers[0].fireAt
    ensures E.FireTimer(s, now, now2).loop == s
  {
    assert s.timers[0..] == s.timers;
  }

  /** attachHandler then detach restores the table, wait-set, counter and timers. */
  lemma AttachThenDetach(s: E.Loop, fd: int, h: E.Handler, mode: TimeEventSet.RemoveMode)
    requires E.Valid(s) && E.InRange(fd) && fd !in s.table
    requires !TimeEventSet.Exists(s.timers, h)
    ensures var r := E.Detach(E.AttachHandler(s, fd, h), fd, h, mode);
      && r.table == s.table && r.readfds == s.readfds && r.totalSelect == s.totalSelect
      && r.timers == s.timers && r.pool == s.pool
      && (s.maxfd != fd ==> r.maxfd == s.maxfd)
  {
    var s1 := E.AttachHandler(s, fd, h);
    assert !E.ExistTimer(s1, fd);
    assert E.Detach(s1, fd, h, mode).table == s.table;
  }

  /** After detach the descriptor may be attached again, to any handler. */
  lemma DetachThenAttach(s: E.Loop, fd: int, h: E.Handler, h2: E.Handler, mode: TimeEventSet.RemoveMode)
    requires E.Valid(s) && Enabled(s, Detach(fd, h, mode))
    ensures Enabled(E.Detach(s, fd, h, mode), Attach(fd, h2))
  {
  }

  /** A timer scheduled by waitTimer is pending until it fires. */
  lemma WaitTimerThenExists(s: E.Loop, fd: int, delta: int, now: int)
    requires E.InRange(fd) && fd in s.table && TimeEventSet.Sorted(s.timers)
    ensures E.ExistTimer(E.WaitTimerDelta(s, fd, delta, now), fd)
  {
    var r := E.WaitTimerDelta(s, fd, delta, now);
    var e := TimeEventSet.Entry(s.table[fd], now + delta);
    assert e in multiset(r.timers);
    assert e in r.timers;
    var i :| 0 <= i < |r.timers| && r.timers[i] == e;
  }

  /**
    Timer scenario: a handler attached to a fresh descriptor schedules a timer
    `delta` after `t0`; a cycle at or after the deadline with no readiness submits
    exactly one timer task for it and leaves the timer set empty.
  */
  lemma TimerScenario(s: E.Loop, fd: int, h: E.Handler, delta: int, t0: int, now: int, now2: int)
    requires E.Valid(s) && !s.quit && s.timers == []
    requires E.InRange(fd) && fd !in s.table
    requires t0 + delta <= now
    ensures var s1 := E.WaitTimerDelta(E.AttachHandler(s, fd, h), fd, delta, t0);
      var r := E.RunOnce(s1, now, now2, {}, 0);
      && r.loop.pool == s.pool + [E.OnTimer(h)]
      && r.loop.timers == []
      && r.timeout == Some(E.SELECT_FALLBACK_USECS)
  {
    var s1 := E.WaitTimerDelta(E.AttachHandler(s, fd, h), fd, delta, t0);
    assert s1.timers == [TimeEventSet.Entry(h, t0 + delta)];
    RunOnceEffect(s1, now, now2, {}, 0);
    assert E.Dispatched(s1.maxfd, {}, 0) == [];
  }

  /**
    detachHandler as compiled with NDEBUG: the erase written inside assert(...)
    disappears together with the assertions, so the table keeps the entry.
  */
  function DetachHandlerNDebug(s: E.Loop, fd: int, p: E.Handler): (r: E.Loop)
    ensures r.table == s.table
    ensures r.readfds == s.readfds - {fd}
  {
    var maxfd :=
      if s.maxfd == fd then E.ScanDown(s.readfds, s.maxfd - 1).GetOr(s.maxfd) else s.maxfd;
    var total := if fd in s.readfds then s.totalSelect - 1 else s.totalSelect;
    s.(maxfd := maxfd, totalSelect := total, readfds := s.readfds - {fd})
  }

  /**
    Under NDEBUG a detached handler stays in the table, so the loop keeps pointing
    at it (and its destructor would later delete it), whereas the intended
    detachHandler removes it.
  */
  lemma DetachNDebugKeepsHandler(s: E.Loop, fd: int, p: E.Handler)
    requires E.InRange(fd) && fd in s.table && s.table[fd] == p
    ensures fd in DetachHandlerNDebug(s, fd, p).table
    ensures DetachHandlerNDebug(s, fd, p).table[fd] == p
    ensures fd !in E.DetachHandler(s, fd, p).table
  {
  }
}
