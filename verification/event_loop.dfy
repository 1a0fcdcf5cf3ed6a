/**
  The reactor of include/EventLoop.h, modelled sequentially: every call is one
  atomic step on an immutable `Loop` record. The readiness poll (::select) is an
  oracle supplied by the caller, the clock is supplied as readings, and the
  worker pool is the append-only log of submitted tasks.
*/
module EventLoop {
  import opened Wrappers
  import TimeEventSet

  /** Capacity of an fd_set: descriptors must lie in [0, FD_SETSIZE). */
  const FD_SETSIZE: int := 1024
  const USECS_PER_SEC: int := 1000000
  /** Poll timeout used when no timer is pending: five seconds. */
  const SELECT_FALLBACK_USECS: int := 5000000

  /** A SocketHandler, identified by its address. */
  datatype Handler = Handler(id: nat)

  /** A callback handed to the worker pool: onReceiveMsg or TimerEvent of a handler. */
  datatype Task = OnReceive(handler: Handler) | OnTimer(handler: Handler)

  type Timers = seq<TimeEventSet.Entry<Handler>>

  /**
    The loop's state: m_map, m_readfds, m_maxfd, m_totalSelect, timeSets,
    m_listenSocket, m_quitFlag, and the tasks submitted to m_pool so far.
  */
  datatype Loop = Loop(
    table: map<int, Handler>,
    readfds: set<int>,
    maxfd: int,
    totalSelect: int,
    timers: Timers,
    listenSocket: int,
    quit: bool,
    pool: seq<Task>)

  predicate InRange(fd: int)
  {
    0 <= fd < FD_SETSIZE
  }

  /**
    The structural invariant: every table key is a valid descriptor, the wait-set
    only holds attached descriptors, m_maxfd bounds the wait-set and stays a
    valid scan bound, and the timers are in fire-time order.
  */
  ghost predicate Valid(s: Loop)
  {
    && (forall fd :: fd in s.table ==> InRange(fd))
    && s.readfds <= s.table.Keys
    && (forall fd :: fd in s.readfds ==> fd <= s.maxfd)
    && -1 <= s.maxfd < FD_SETSIZE
    && TimeEventSet.Sorted(s.timers)
  }

  /** The registration counter agrees with the size of the wait-set. */
  ghost predicate Counted(s: Loop)
  {
    s.totalSelect == |s.readfds|
  }

  /** A freshly constructed loop. */
  function Init(): (s: Loop)
    ensures Valid(s) && Counted(s)
    ensures s.table == map[] && s.readfds == {} && s.timers == [] && s.pool == []
    ensures s.maxfd == -1 && s.listenSocket == -1 && !s.quit
  {
    Loop(map[], {}, -1, 0, [], -1, false, [])
  }

  /** attachHandler: binds `fd` to `p`; nothing else changes. */
  function AttachHandler(s: Loop, fd: int, p: Handler): (r: Loop)
    requires InRange(fd) && fd !in s.table
    ensures r.table.Keys == s.table.Keys + {fd}
    ensures r.table[fd] == p
    ensures forall x :: x in s.table ==> r.table[x] == s.table[x]
    ensures r.(table := s.table) == s
  {
    s.(table := s.table[fd := p])
  }

  /**
    Highest member of `fds` in [0, i], scanning downward from `i` as the source's
    loops over the fd_set do.
  */
  function ScanDown(fds: set<int>, i: int): (r: Option<int>)
    decreases if i < 0 then 0 else i + 1
    ensures r.Some? ==> 0 <= r.value <= i && r.value in fds
    ensures r.Some? ==> forall j :: r.value < j <= i ==> j !in fds
    ensures r.None? ==> forall j :: 0 <= j <= i ==> j !in fds
  {
    if i < 0 then None
    else if i in fds then Some(i)
    else ScanDown(fds, i - 1)
  }

  /**
    detachHandler: unbinds `fd`, drops it from the wait-set (decrementing the
    counter when it was there) and, when `fd` was the scan bound, lowers the bound
    to the next registered descriptor below it if there is one.
  */
  function DetachHandler(s: Loop, fd: int, p: Handler): (r: Loop)
    requires InRange(fd) && fd in s.table && s.table[fd] == p
    ensures r.table.Keys == s.table.Keys - {fd}
    ensures forall x :: x in r.table ==> r.table[x] == s.table[x]
    ensures r.readfds == s.readfds - {fd}
    ensures r.totalSelect == if fd in s.readfds then s.totalSelect - 1 else s.totalSelect
    ensures s.maxfd != fd ==> r.maxfd == s.maxfd
    ensures s.maxfd == fd ==> r.maxfd <= fd && forall x :: x in r.readfds && x < fd ==> x <= r.maxfd
    ensures s.maxfd == fd ==> r.maxfd == fd || (0 <= r.maxfd < fd && r.maxfd in r.readfds)
    ensures s.maxfd == fd ==> forall x :: r.maxfd < x < fd ==> x !in s.readfds
    ensures s.maxfd == fd && r.maxfd == fd ==> forall x :: 0 <= x < fd ==> x !in s.readfds
    ensures r.(table := s.table, readfds := s.readfds, totalSelect := s.totalSelect, maxfd := s.maxfd) == s
  {
    var maxfd :=
      if s.maxfd == fd then ScanDown(s.readfds, s.maxfd - 1).GetOr(s.maxfd) else s.maxfd;
    var total := if fd in s.readfds then s.totalSelect - 1 else s.totalSelect;
    s.(table := s.table - {fd}, maxfd := maxfd, totalSelect := total, readfds := s.readfds - {fd})
  }

  /**
    registerRead: puts `fd` back into the wait-set and raises the scan bound to
    cover it. The counter is incremented even when `fd` was already registered.
  */
  function RegisterRead(s: Loop, fd: int): (r: Loop)
    requires InRange(fd) && fd in s.table
    ensures r.readfds == s.readfds + {fd}
    ensures fd <= r.maxfd && s.maxfd <= r.maxfd && (r.maxfd == fd || r.maxfd == s.maxfd)
    ensures r.totalSelect == s.totalSelect + 1
    ensures r.(readfds := s.readfds, maxfd := s.maxfd, totalSelect := s.totalSelect) == s
  {
    s.(maxfd := if s.maxfd < fd then fd else s.maxfd, readfds := s.readfds + {fd}, totalSelect := s.totalSelect + 1)
  }

  /** Shared body of both waitTimer overloads: schedule `fd`'s handler at `at`. */
  function AddTimer(s: Loop, fd: int, at: int): (r: Loop)
    requires InRange(fd) && fd in s.table
    requires TimeEventSet.Sorted(s.timers)
    ensures TimeEventSet.Sorted(r.timers)
    ensures multiset(r.timers) == multiset(s.timers) + multiset{TimeEventSet.Entry(s.table[fd], at)}
    ensures r.(timers := s.timers) == s
  {
    s.(timers := TimeEventSet.Insert(s.timers, TimeEventSet.Entry(s.table[fd], at)))
  }

  /** waitTimer(fd, second): fire `seconds` whole seconds after the clock reading `now`. */
  function WaitTimerSecs(s: Loop, fd: int, seconds: nat, now: int): (r: Loop)
    requires InRange(fd) && fd in s.table
    requires TimeEventSet.Sorted(s.timers)
    ensures TimeEventSet.Sorted(r.timers)
    ensures multiset(r.timers) == multiset(s.timers) + multiset{TimeEventSet.Entry(s.table[fd], now + seconds * USECS_PER_SEC)}
    ensures r.(timers := s.timers) == s
  {
    AddTimer(s, fd, now + seconds * USECS_PER_SEC)
  }

  /** waitTimer(fd, tms): fire `delta` microseconds after the clock reading `now`. */
  function WaitTimerDelta(s: Loop, fd: int, delta: int, now: int): (r: Loop)
    requires InRange(fd) && fd in s.table
    requires TimeEventSet.Sorted(s.timers)
    ensures TimeEventSet.Sorted(r.timers)
    ensures multiset(r.timers) == multiset(s.timers) + multiset{TimeEventSet.Entry(s.table[fd], now + delta)}
    ensures r.(timers := s.timers) == s
  {
    AddTimer(s, fd, now + delta)
  }

  /** existTimer: whether a timer is pending for `fd`'s handler. */
  function ExistTimer(s: Loop, fd: int): (b: bool)
    requires InRange(fd) && fd in s.table
    ensures b <==> exists i :: 0 <= i < |s.timers| && s.timers[i].handler == s.table[fd]
  {
    TimeEventSet.Exists(s.timers, s.table[fd])
  }

  /** deleteTimer: cancels `fd`'s handler's timer, under either reading of remove. */
  function DeleteTimer(s: Loop, fd: int, mode: TimeEventSet.RemoveMode): (r: Loop)
    requires InRange(fd) && fd in s.table
    ensures forall e: TimeEventSet.Entry<Handler> :: e.handler != s.table[fd] ==>
      multiset(r.timers)[e] == multiset(s.timers)[e]
    ensures mode == TimeEventSet.RemoveAll ==> !TimeEventSet.Exists(r.timers, s.table[fd])
    ensures mode == TimeEventSet.RemoveFirst && ExistTimer(s, fd) ==>
      && |r.timers| == |s.timers| - 1
      && multiset(r.timers) + multiset{s.timers[TimeEventSet.FirstIndexOf(s.timers, s.table[fd]).value]} == multiset(s.timers)
    ensures !ExistTimer(s, fd) ==> r == s
    ensures forall i :: 0 <= i < |s.timers| && s.timers[i].handler != s.table[fd] ==> s.timers[i] in r.timers
    ensures forall i :: 0 <= i < |r.timers| ==> r.timers[i] in s.timers
    ensures TimeEventSet.Sorted(s.timers) ==> TimeEventSet.Sorted(r.timers)
    ensures r.(timers := s.timers) == s
  {
    s.(timers := TimeEventSet.Remove(s.timers, s.table[fd], mode))
  }

  /** SocketHandler::detach: cancel the handler's timer if one is pending, then detach. */
  function Detach(s: Loop, fd: int, p: Handler, mode: TimeEventSet.RemoveMode): (r: Loop)
    requires InRange(fd) && fd in s.table && s.table[fd] == p
    ensures fd !in r.table && fd !in r.readfds
    ensures r.table.Keys == s.table.Keys - {fd}
    ensures forall x :: x in r.table ==> r.table[x] == s.table[x]
    ensures r.readfds == s.readfds - {fd}
    ensures r.totalSelect == if fd in s.readfds then s.totalSelect - 1 else s.totalSelect
    ensures s.maxfd != fd ==> r.maxfd == s.maxfd
    ensures s.maxfd == fd ==> r.maxfd == fd || (0 <= r.maxfd < fd && r.maxfd in r.readfds)
    ensures s.maxfd == fd ==> forall x :: r.maxfd < x < fd ==> x !in s.readfds
    ensures s.maxfd == fd && r.maxfd == fd ==> forall x :: 0 <= x < fd ==> x !in s.readfds
    ensures !ExistTimer(s, fd) ==> r.timers == s.timers
    ensures forall e: TimeEventSet.Entry<Handler> :: e.handler != p ==> multiset(r.timers)[e] == multiset(s.timers)[e]
    ensures mode == TimeEventSet.RemoveAll ==> !TimeEventSet.Exists(r.timers, p)
    ensures mode == TimeEventSet.RemoveFirst && ExistTimer(s, fd) ==>
      multiset(r.timers) + multiset{s.timers[TimeEventSet.FirstIndexOf(s.timers, p).value]} == multiset(s.timers)
    ensures forall i :: 0 <= i < |s.timers| && s.timers[i].handler != p ==> s.timers[i] in r.timers
    ensures r.pool == s.pool && r.listenSocket == s.listenSocket && r.quit == s.quit
  {
    var s1 := CancelTimer(s, fd, mode);
    DetachHandler(s1, fd, p)
  }

  /** The first half of SocketHandler::detach: deleteTimer, only when existTimer reports a pending timer. */
  function CancelTimer(s: Loop, fd: int, mode: TimeEventSet.RemoveMode): (r: Loop)
    requires InRange(fd) && fd in s.table
    ensures !ExistTimer(s, fd) ==> r.timers == s.timers
    ensures forall e: TimeEventSet.Entry<Handler> :: e.handler != s.table[fd] ==>
      multiset(r.timers)[e] == multiset(s.timers)[e]
    ensures mode == TimeEventSet.RemoveAll ==> !TimeEventSet.Exists(r.timers, s.table[fd])
    ensures mode == TimeEventSet.RemoveFirst && ExistTimer(s, fd) ==>
      multiset(r.timers) + multiset{s.timers[TimeEventSet.FirstIndexOf(s.timers, s.table[fd]).value]} == multiset(s.timers)
    ensures forall i :: 0 <= i < |s.timers| && s.timers[i].handler != s.table[fd] ==> s.timers[i] in r.timers
    ensures TimeEventSet.Sorted(s.timers) ==> TimeEventSet.Sorted(r.timers)
    ensures r.(timers := s.timers) == s
  {
    if ExistTimer(s, fd) then DeleteTimer(s, fd, mode) else s
  }

  /** TCPAcceptor::setListenSocket: designates the descriptor exempt from one-shot removal. */
  function SetListenSocket(s: Loop, fd: int): (r: Loop)
    ensures r.listenSocket == fd
    ensures r.(listenSocket := s.listenSocket) == s
  {
    s.(listenSocket := fd)
  }

  /** A timer task per entry, in entry order. */
  function TimerTasks(es: Timers): (tasks: seq<Task>)
    ensures |tasks| == |es|
    ensures forall i :: 0 <= i < |es| ==> tasks[i] == OnTimer(es[i].handler)
  {
    seq(|es|, i requires 0 <= i < |es| => OnTimer(es[i].handler))
  }

  datatype Fired = Fired(loop: Loop, next: Option<int>)

  /**
    fireTimer: submits a timer task for every entry of the maximal due prefix at
    clock reading `now`, drops that prefix, and reports the time left until the
    earliest remaining entry at the later reading `now2` (floored at zero), or
    none when no timer is left.
  */
  function FireTimer(s: Loop, now: int, now2: int): (r: Fired)
    ensures |r.loop.timers| <= |s.timers|
    ensures var k := |s.timers| - |r.loop.timers|;
      && r.loop.timers == s.timers[k..]
      && r.loop.pool == s.pool + TimerTasks(s.timers[..k])
      && (forall i :: 0 <= i < k ==> s.timers[i].fireAt <= now)
      && (k < |s.timers| ==> now < s.timers[k].fireAt)
    ensures r.next.None? <==> r.loop.timers == []
    ensures r.next.Some? ==> 0 <= r.next.value
    ensures r.next.Some? && 0 < r.next.value ==> now2 + r.next.value == r.loop.timers[0].fireAt
    ensures r.next.Some? && r.next.value == 0 ==> r.loop.timers[0].fireAt <= now2
    ensures r.loop.(timers := s.timers, pool := s.pool) == s
  {
    var k := TimeEventSet.DueCount(s.timers, now);
    var rest := s.timers[k..];
    var s1 := s.(pool := s.pool + TimerTasks(s.timers[..k]), timers := rest);
    Fired(s1, TimeEventSet.NextTimeout(rest, now2))
  }

  /** The first `n` elements of `xs`, or all of them when `n` is larger. */
  function Take(xs: seq<int>, n: int): (r: seq<int>)
    ensures |r| <= |xs| && r == xs[..|r|]
    ensures n <= 0 ==> r == []
    ensures 0 <= n <= |xs| ==> |r| == n
    ensures |xs| <= n ==> r == xs
  {
    if n <= 0 then [] else if n >= |xs| then xs else xs[..n]
  }

  /** Members of `fds` in [lo, hi], in ascending order. */
  function Members(fds: set<int>, lo: int, hi: int): (r: seq<int>)
    decreases hi - lo + 1
    ensures forall x :: x in r <==> lo <= x <= hi && x in fds
  {
    if lo > hi then []
    else (if lo in fds then [lo] else []) + Members(fds, lo + 1, hi)
  }

  /** The scan lists the members in strictly ascending order. */
  lemma {:induction false} MembersAscending(fds: set<int>, lo: int, hi: int)
    decreases hi - lo + 1
    ensures forall i, j :: 0 <= i < j < |Members(fds, lo, hi)| ==>
      Members(fds, lo, hi)[i] < Members(fds, lo, hi)[j]
  {
    if lo <= hi {
      MembersAscending(fds, lo + 1, hi);
      MembersUnfold(fds, lo, hi);
      var rest := Members(fds, lo + 1, hi);
      assert forall i :: 0 <= i < |rest| ==> rest[i] in rest;
    }
  }

  /**
    The descriptors one poll dispatches: the first `num` ready descriptors in
    ascending order, among those the scan bound `maxfd` covers.
  */
  function Dispatched(maxfd: int, ready: set<int>, num: int): (d: seq<int>)
    ensures d == Take(Members(ready, 0, maxfd), num)
  {
    DispatchedFromIsPrefix(ready, 0, maxfd, 0, num);
    DispatchedFrom(ready, 0, maxfd, 0, num)
  }

  /** An on-readable task per descriptor, for the handler bound to it, in order. */
  function ReceiveTasks(table: map<int, Handler>, fds: seq<int>): (tasks: seq<Task>)
    requires forall i :: 0 <= i < |fds| ==> fds[i] in table
    ensures |tasks| == |fds|
    ensures forall i :: 0 <= i < |fds| ==> tasks[i] == OnReceive(table[fds[i]])
  {
    seq(|fds|, i requires 0 <= i < |fds| => OnReceive(table[fds[i]]))
  }

  /** Descriptors of `fds` that one-shot dispatch takes out of the wait-set. */
  function Removed(fds: seq<int>, listen: int): set<int>
  {
    set x | x in fds && x != listen
  }

  /** Dispatch of one ready descriptor: submit its handler and, unless it listens, unregister it. */
  function DispatchOne(s: Loop, fd: int): (r: Loop)
    requires fd in s.table
    ensures r.pool == s.pool + [OnReceive(s.table[fd])]
    ensures r.readfds == if fd != s.listenSocket then s.readfds - {fd} else s.readfds
    ensures r.totalSelect == if fd != s.listenSocket then s.totalSelect - 1 else s.totalSelect
    ensures r.(pool := s.pool, readfds := s.readfds, totalSelect := s.totalSelect) == s
  {
    var s1 := if fd != s.listenSocket then s.(totalSelect := s.totalSelect - 1, readfds := s.readfds - {fd}) else s;
    s1.(pool := s1.pool + [OnReceive(s.table[fd])])
  }

  /**
    The dispatch loop of run_once: descriptors i = lo, lo+1, ... up to `mfd`, while
    fewer than `num` have been found ready (`curnum` found so far).
  */
  function DispatchFrom(s: Loop, rr: set<int>, lo: int, mfd: int, curnum: int, num: int): (r: Loop)
    requires forall x :: x in rr && lo <= x <= mfd ==> x in s.table
    decreases mfd - lo + 1
    ensures r.readfds <= s.readfds
    ensures |s.pool| <= |r.pool|
    ensures r.table == s.table && r.listenSocket == s.listenSocket
  {
    if !(lo <= mfd && curnum < num) then s
    else if lo in rr then DispatchFrom(DispatchOne(s, lo), rr, lo + 1, mfd, curnum + 1, num)
    else DispatchFrom(s, rr, lo + 1, mfd, curnum, num)
  }

  /**
    The descriptors the dispatch loop visits and finds ready, from `lo` on, with
    `curnum` found so far: it stops past `mfd` or once `num` have been found.
  */
  function DispatchedFrom(rr: set<int>, lo: int, mfd: int, curnum: int, num: int): (d: seq<int>)
    decreases mfd - lo + 1
    ensures forall i :: 0 <= i < |d| ==> d[i] in rr && lo <= d[i] <= mfd
  {
    if !(lo <= mfd && curnum < num) then []
    else if lo in rr then [lo] + DispatchedFrom(rr, lo + 1, mfd, curnum + 1, num)
    else DispatchedFrom(rr, lo + 1, mfd, curnum, num)
  }

  /**
    The loop's dispatch list agrees with the reference description: the first
    `num - curnum` members of `rr` within [lo, mfd], in ascending order.
  */
  lemma {:induction false} DispatchedFromIsPrefix(rr: set<int>, lo: int, mfd: int, curnum: int, num: int)
    decreases mfd - lo + 1
    ensures DispatchedFrom(rr, lo, mfd, curnum, num) == Take(Members(rr, lo, mfd), num - curnum)
  {
    var d := DispatchedFrom(rr, lo, mfd, curnum, num);
    if !(lo <= mfd && curnum < num) {
      assert d == [];
      if lo > mfd {
        assert Members(rr, lo, mfd) == [];
      }
    } else {
      var m' := Members(rr, lo + 1, mfd);
      MembersUnfold(rr, lo, mfd);
      if lo in rr {
        var d' := DispatchedFrom(rr, lo + 1, mfd, curnum + 1, num);
        assert d == [lo] + d';
        DispatchedFromIsPrefix(rr, lo + 1, mfd, curnum + 1, num);
        TakeCons(lo, m', num - curnum);
      } else {
        assert d == DispatchedFrom(rr, lo + 1, mfd, curnum, num);
        DispatchedFromIsPrefix(rr, lo + 1, mfd, curnum, num);
      }
    }
  }

  lemma MembersUnfold(fds: set<int>, lo: int, hi: int)
    requires lo <= hi
    ensures Members(fds, lo, hi) == (if lo in fds then [lo] else []) + Members(fds, lo + 1, hi)
  {
  }

  lemma TakeCons(x: int, xs: seq<int>, n: int)
    requires 1 <= n
    ensures Take([x] + xs, n) == [x] + Take(xs, n - 1)
  {
  }

  /** The dispatch loop touches only the task log, the wait-set and the counter. */
  lemma {:induction false} DispatchFromFrame(s: Loop, rr: set<int>, lo: int, mfd: int, curnum: int, num: int)
    requires forall x :: x in rr && lo <= x <= mfd ==> x in s.table
    decreases mfd - lo + 1
    ensures DispatchFrom(s, rr, lo, mfd, curnum, num).(pool := s.pool, readfds := s.readfds, totalSelect := s.totalSelect) == s
  {
    if lo <= mfd && curnum < num {
      if lo in rr {
        DispatchFromFrame(DispatchOne(s, lo), rr, lo + 1, mfd, curnum + 1, num);
      } else {
        DispatchFromFrame(s, rr, lo + 1, mfd, curnum, num);
      }
    }
  }

  /** The dispatch loop appends one on-readable task per dispatched descriptor, in ascending order. */
  lemma {:induction false} DispatchFromPool(s: Loop, rr: set<int>, lo: int, mfd: int, curnum: int, num: int)
    requires forall x :: x in rr && lo <= x <= mfd ==> x in s.table
    decreases mfd - lo + 1
    ensures var d := DispatchedFrom(rr, lo, mfd, curnum, num);
      && (forall i :: 0 <= i < |d| ==> d[i] in s.table)
      && DispatchFrom(s, rr, lo, mfd, curnum, num).pool == s.pool + ReceiveTasks(s.table, d)
  {
    if lo <= mfd && curnum < num {
      if lo in rr {
        var s1 := DispatchOne(s, lo);
        assert s1.table == s.table;
        DispatchFromPool(s1, rr, lo + 1, mfd, curnum + 1, num);
        var d' := DispatchedFrom(rr, lo + 1, mfd, curnum + 1, num);
        assert DispatchedFrom(rr, lo, mfd, curnum, num) == [lo] + d';
        assert ReceiveTasks(s.table, [lo] + d') == [OnReceive(s.table[lo])] + ReceiveTasks(s.table, d');
      } else {
        DispatchFromPool(s, rr, lo + 1, mfd, curnum, num);
      }
    }
  }

  /** The dispatch loop unregisters every dispatched descriptor except the listen socket. */
  lemma {:induction false} DispatchFromWaitSet(s: Loop, rr: set<int>, lo: int, mfd: int, curnum: int, num: int)
    requires forall x :: x in rr && lo <= x <= mfd ==> x in s.table && x in s.readfds
    decreases mfd - lo + 1
    ensures var d := DispatchedFrom(rr, lo, mfd, curnum, num);
      var r := DispatchFrom(s, rr, lo, mfd, curnum, num);
      && Removed(d, s.listenSocket) <= s.readfds
      && r.readfds == s.readfds - Removed(d, s.listenSocket)
  {
    var d := DispatchedFrom(rr, lo, mfd, curnum, num);
    var r := DispatchFrom(s, rr, lo, mfd, curnum, num);
    if !(lo <= mfd && curnum < num) {
      assert r == s;
      assert Removed(d, s.listenSocket) == {};
    } else if lo in rr {
      var s1 := DispatchOne(s, lo);
      assert r == DispatchFrom(s1, rr, lo + 1, mfd, curnum + 1, num);
      assert lo in s.readfds;
      assert s1.table == s.table && s1.listenSocket == s.listenSocket;
      assert forall x :: x in rr && lo + 1 <= x <= mfd ==> x in s1.table && x in s1.readfds;
      DispatchFromWaitSet(s1, rr, lo + 1, mfd, curnum + 1, num);
      var d' := DispatchedFrom(rr, lo + 1, mfd, curnum + 1, num);
      assert d == [lo] + d';
      var removed' := Removed(d', s.listenSocket);
      if lo != s.listenSocket {
        assert Removed(d, s.listenSocket) == {lo} + removed';
      } else {
        assert Removed(d, s.listenSocket) == removed';
      }
    } else {
      assert r == DispatchFrom(s, rr, lo + 1, mfd, curnum, num);
      DispatchFromWaitSet(s, rr, lo + 1, mfd, curnum, num);
    }
  }

  /** The dispatch loop decrements the counter once per descriptor it unregisters. */
  lemma {:induction false} DispatchFromCounter(s: Loop, rr: set<int>, lo: int, mfd: int, curnum: int, num: int)
    requires forall x :: x in rr && lo <= x <= mfd ==> x in s.table
    decreases mfd - lo + 1
    ensures DispatchFrom(s, rr, lo, mfd, curnum, num).totalSelect
         == s.totalSelect - |Removed(DispatchedFrom(rr, lo, mfd, curnum, num), s.listenSocket)|
  {
    var d := DispatchedFrom(rr, lo, mfd, curnum, num);
    var r := DispatchFrom(s, rr, lo, mfd, curnum, num);
    if !(lo <= mfd && curnum < num) {
      assert Removed(d, s.listenSocket) == {};
    } else if lo in rr {
      var s1 := DispatchOne(s, lo);
      assert r == DispatchFrom(s1, rr, lo + 1, mfd, curnum + 1, num);
      assert s1.table == s.table && s1.listenSocket == s.listenSocket;
      DispatchFromCounter(s1, rr, lo + 1, mfd, curnum + 1, num);
      var d' := DispatchedFrom(rr, lo + 1, mfd, curnum + 1, num);
      assert d == [lo] + d';
      var removed' := Removed(d', s.listenSocket);
      assert lo !in removed';
      if lo != s.listenSocket {
        assert Removed(d, s.listenSocket) == {lo} + removed';
      } else {
        assert Removed(d, s.listenSocket) == removed';
      }
    } else {
      assert r == DispatchFrom(s, rr, lo + 1, mfd, curnum, num);
      DispatchFromCounter(s, rr, lo + 1, mfd, curnum, num);
    }
  }

  /**
    Closed form of the dispatch loop: it submits an on-readable task for each
    dispatched descriptor in ascending order and unregisters each of them except
    the listen socket, decrementing the counter once per unregistered descriptor.
  */
  lemma DispatchFromClosedForm(s: Loop, rr: set<int>, lo: int, mfd: int, curnum: int, num: int)
    requires forall x :: x in rr && lo <= x <= mfd ==> x in s.table && x in s.readfds
    ensures var d := DispatchedFrom(rr, lo, mfd, curnum, num);
      var r := DispatchFrom(s, rr, lo, mfd, curnum, num);
      && (forall i :: 0 <= i < |d| ==> d[i] in s.table)
      && r.pool == s.pool + ReceiveTasks(s.table, d)
      && r.readfds == s.readfds - Removed(d, s.listenSocket)
      && Removed(d, s.listenSocket) <= s.readfds
      && r.totalSelect == s.totalSelect - |Removed(d, s.listenSocket)|
      && r.(pool := s.pool, readfds := s.readfds, totalSelect := s.totalSelect) == s
  {
    DispatchFromFrame(s, rr, lo, mfd, curnum, num);
    DispatchFromPool(s, rr, lo, mfd, curnum, num);
    DispatchFromWaitSet(s, rr, lo, mfd, curnum, num);
    DispatchFromCounter(s, rr, lo, mfd, curnum, num);
  }

  /** The tail of run_once: lower the scan bound to the highest registered descriptor, if any. */
  function RecomputeMax(fds: set<int>, maxfd: int): (r: int)
    ensures r <= maxfd
    ensures forall x :: r < x <= maxfd ==> x !in fds
    ensures (exists x :: 0 <= x <= maxfd && x in fds) ==> 0 <= r && r in fds
    ensures (forall x :: 0 <= x <= maxfd ==> x !in fds) ==> r == maxfd
  {
    ScanDown(fds, maxfd).GetOr(maxfd)
  }

  /** Outcome of one cycle: the new state and the timeout handed to the poll (none when quitting). */
  datatype Cycle = Cycle(loop: Loop, timeout: Option<int>)

  /**
    run_once. Fires due timers, polls with the next deadline (or the five-second
    fallback) as timeout, then dispatches the descriptors the poll reported and
    recomputes the scan bound. `ready` and `num` are what ::select reported for the
    snapshot of the wait-set: the descriptors found readable, and the event count
    (zero on timeout, negative on error).
  */
  function RunOnce(s: Loop, now: int, now2: int, ready: set<int>, num: int): (r: Cycle)
    requires Valid(s)
    requires ready <= s.readfds
    ensures s.quit ==> r == Cycle(s, None)
    ensures !s.quit ==> r.timeout.Some? && 0 <= r.timeout.value
    ensures !s.quit && r.loop.timers == [] ==> r.timeout == Some(SELECT_FALLBACK_USECS)
    ensures !s.quit && r.loop.timers != [] ==>
      r.timeout == Some(if r.loop.timers[0].fireAt - now2 > 0 then r.loop.timers[0].fireAt - now2 else 0)
    ensures Valid(r.loop)
    ensures r.loop.readfds <= s.readfds
    ensures r.loop.table == s.table && r.loop.listenSocket == s.listenSocket && r.loop.quit == s.quit
    ensures !s.quit && r.loop.readfds != {} ==> r.loop.maxfd in r.loop.readfds
    ensures r.loop.readfds == {} ==> r.loop.maxfd == s.maxfd
    ensures Counted(s) ==> Counted(r.loop)
  {
    if s.quit then Cycle(s, None)
    else
      var fired := FireTimer(s, now, now2);
      var s1 := fired.loop;
      var timeout := fired.next.GetOr(SELECT_FALLBACK_USECS);
      DispatchFromClosedForm(s1, ready, 0, s1.maxfd, 0, num);
      var s2 := DispatchFrom(s1, ready, 0, s1.maxfd, 0, num);
      var s3 := s2.(maxfd := RecomputeMax(s2.readfds, s2.maxfd));
      assert TimeEventSet.Sorted(s3.timers) by {
        assert forall i :: 0 <= i < |s1.timers| ==> s1.timers[i] == s.timers[i + |s.timers| - |s1.timers|];
      }
      Cycle(s3, Some(timeout))
  }
}
