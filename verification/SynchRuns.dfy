/** What semaphores, locks and condition variables promise over whole runs of any number of threads. */
module SynchRuns {
  import Q = Queue
  import P = PtrArray
  import opened Threads
  import opened Synch

  /** The boot thread runs, semaphores have what sem_create gave them and no lock is taken. */
  predicate Begin(s: State) {
    && s.sys == Boot<Addr>() && s.count == s.initial && s.pc == map[] && s.held == {}
    && s.count.Keys == s.vs.Keys == s.ps.Keys
    && (forall m | m in s.count :: s.count[m] >= 0 && s.vs[m] == 0 && s.ps[m] == 0)
    && (forall l | l in s.owner :: s.owner[l] == NONE)
  }

  predicate Feasible(s: State, es: seq<Event>)
    decreases |es|
  {
    es != [] ==> Enabled(s, es[0]) && var r := Step(s, es[0]); (r.To? ==> Feasible(r.s, es[1..]))
  }

  function After(s: State, es: seq<Event>): Result
    requires Feasible(s, es)
    decreases |es|
  {
    if es == [] then To(s)
    else var r := Step(s, es[0]); if r.Failed? then Failed else After(r.s, es[1..])
  }

  lemma BeginSInv(s: State)
    requires Begin(s)
    ensures SInv(s)
  {
    BootInv<Addr>();
  }

  lemma {:induction false} RunKeepsSInv(s: State, es: seq<Event>)
    requires SInv(s) && Feasible(s, es) && After(s, es).To?
    ensures SInv(After(s, es).s)
    decreases |es|
  {
    hide SInv, Step, Enabled;
    if es != [] {
      StepKeepsSInv(s, es[0]);
      RunKeepsSInv(Step(s, es[0]).s, es[1..]);
    }
  }

  // ----- safety

  /** At most one thread has been given a lock that is not yet released. */
  lemma MutualExclusion(s: State, es: seq<Event>, t: nat, u: nat, l: nat)
    requires Begin(s) && Feasible(s, es) && After(s, es).To?
    requires (t, l) in After(s, es).s.held && (u, l) in After(s, es).s.held
    ensures t == u
  {
    BeginSInv(s);
    RunKeepsSInv(s, es);
  }

  /** The count is what the semaphore began with, plus the V's, minus the finished P's; it never falls below zero. */
  lemma SemaphoreCounts(s: State, es: seq<Event>, m: nat)
    requires Begin(s) && Feasible(s, es) && After(s, es).To? && m in s.count
    ensures var g := After(s, es).s;
            m in g.count && m in g.vs && m in g.ps
            && g.count[m] == s.count[m] + g.vs[m] - g.ps[m] && g.count[m] >= 0
  {
    BeginSInv(s);
    RunKeepsSInv(s, es);
    KeysStay(s, es);
  }

  lemma SameKeys(s: State, g: State)
    requires SInv(s) && SInv(g) && g.initial == s.initial
    ensures g.count.Keys == s.count.Keys
  {
  }

  lemma {:induction false} KeysStay(s: State, es: seq<Event>)
    requires SInv(s) && Feasible(s, es) && After(s, es).To?
    ensures After(s, es).s.count.Keys == s.count.Keys && After(s, es).s.initial == s.initial
    decreases |es|
  {
    hide SInv, Step, Enabled;
    if es != [] {
      StepKeepsSInv(s, es[0]);
      StepMovers(s, es[0]);
      SameKeys(s, Step(s, es[0]).s);
      KeysStay(Step(s, es[0]).s, es[1..]);
    }
  }

  /** The thread that a step may bring into or out of an operation. */
  function Mover(s: State, e: Event): int {
    if e.EFork? then e.t else s.sys.cur
  }

  /** `g` begins as `s` did, and only thread `t` may be elsewhere in its operations. */
  ghost predicate OnlyMover(s: State, g: State, t: int) {
    g.initial == s.initial && forall u: nat | u != t :: PcOf(g, u) == PcOf(s, u)
  }

  lemma TryMovers(s: State, m: nat, l: nat, at: Pc, memory: bool)
    requires s.sys.cur >= 0
    ensures m in s.count && m in s.ps && TryP(s, m, memory).To? ==> OnlyMover(s, TryP(s, m, memory).s, s.sys.cur)
    ensures l in s.owner && TryAcquire(s, l, at, memory).To? ==> OnlyMover(s, TryAcquire(s, l, at, memory).s, s.sys.cur)
  {
    hide Sleep;
  }

  lemma ResumeMovers(s: State, memory: bool)
    requires s.sys.cur >= 0 && Resume(s, memory).To?
    ensures OnlyMover(s, Resume(s, memory).s, s.sys.cur)
  {
    hide TryP, TryAcquire;
    match PcOf(s, s.sys.cur)
    case Idle =>
    case InP(m) => TryMovers(s, m, 0, Idle, memory);
    case InAcquire(l) => TryMovers(s, 0, l, InAcquire(l), memory);
    case InWait(d, l) => TryMovers(s, 0, l, InRegain(d, l), memory);
    case InRegain(d, l) => TryMovers(s, 0, l, InRegain(d, l), memory);
  }

  lemma WaitMovers(s: State, c: nat, l: nat, memory: bool)
    requires SInv(s) && s.sys.cur >= 0 && l in s.owner && Wait(s, c, l, memory).To?
    ensures OnlyMover(s, Wait(s, c, l, memory).s, s.sys.cur)
  {
    hide Sleep, Wakeup, Inv, Justified, Counted, Owned, Known;
    ReleaseKeeps(s, l, memory);
  }

  lemma StepMovers(s: State, e: Event)
    requires SInv(s) && Enabled(s, e) && Step(s, e).To?
    ensures OnlyMover(s, Step(s, e).s, Mover(s, e))
  {
    hide SInv, TryP, TryAcquire, Resume, Wait, Wakeup, WakeOne, Yield, Exit, Dispatch, Fork, Census;
    match e
    case EP(m, memory) => TryMovers(s, m, 0, Idle, memory);
    case EAcquire(l, memory) => TryMovers(s, 0, l, InAcquire(l), memory);
    case EResume(memory) => ResumeMovers(s, memory);
    case EWait(c, l, memory) => WaitMovers(s, c, l, memory);
    case _ =>
  }

  /** No wakeup is lost: who sleeps on a semaphore has nothing to take, who sleeps on a lock finds it taken. */
  lemma NoLostWakeup(s: State, es: seq<Event>, t: nat)
    requires Begin(s) && Feasible(s, es) && After(s, es).To? && t in After(s, es).s.sys.asleep
    ensures var g := After(s, es).s; t in g.sys.addr && match g.sys.addr[t] {
              case SemAddr(m) => PcOf(g, t) == InP(m) && m in g.count && g.count[m] == 0
              case LockAddr(l) => Wants(PcOf(g, t), l) && l in g.owner && g.owner[l] != NONE && g.owner[l] != t
              case CvAddr(c) => PcOf(g, t).InWait? && PcOf(g, t).c == c }
  {
    BeginSInv(s);
    RunKeepsSInv(s, es);
  }

  // ----- who waits for a signal

  /** The threads asleep on an address, longest first. */
  function On(s: Sys<Addr>, a: Addr): seq<nat> {
    Woken(s.asleep, s.addr, a)
  }

  function Waiters(s: State, c: nat): seq<nat> {
    On(s.sys, CvAddr(c))
  }

  lemma {:induction false} WokenFrame(l: seq<nat>, addr: map<nat, Addr>, addr': map<nat, Addr>, a: Addr)
    requires forall t: nat | t in l :: (t in addr && addr[t] == a) <==> (t in addr' && addr'[t] == a)
    ensures Woken(l, addr, a) == Woken(l, addr', a)
  {
    if l != [] {
      WokenFrame(l[1..], addr, addr', a);
    }
  }

  lemma {:induction false} WokenKept(l: seq<nat>, addr: map<nat, Addr>, b: Addr, a: Addr)
    ensures Woken(Kept(l, addr, b), addr, a) == if a == b then [] else Woken(l, addr, a)
  {
    if l != [] {
      WokenKept(l[1..], addr, b, a);
      var k := Kept(l[1..], addr, b);
      WokenFirst(l[0], k, addr, a);
      assert [] + k == k;
    }
  }

  lemma {:induction false} WokenRemove(l: seq<nat>, k: nat, addr: map<nat, Addr>, a: Addr)
    requires k < |l| && !(l[k] in addr && addr[l[k]] == a)
    ensures Woken(RemoveAt(l, k), addr, a) == Woken(l, addr, a)
  {
    hide Woken, RemoveAt;
    RemoveAtTail(l, k);
    WokenFirst(l[0], l[1..], addr, a);
    if k > 0 {
      WokenRemove(l[1..], k - 1, addr, a);
      WokenFirst(l[0], RemoveAt(l[1..], k - 1), addr, a);
    } else {
      assert [] + Woken(l[1..], addr, a) == Woken(l[1..], addr, a);
    }
  }

  lemma {:induction false} WokenConcat(l: seq<nat>, m: seq<nat>, addr: map<nat, Addr>, a: Addr)
    ensures Woken(l + m, addr, a) == Woken(l, addr, a) + Woken(m, addr, a)
  {
    if l == [] {
      assert l + m == m;
    } else {
      assert (l + m)[1..] == l[1..] + m;
      WokenConcat(l[1..], m, addr, a);
    }
  }

  lemma SleepOn(s: Sys<Addr>, b: Addr, memory: bool, a: Addr)
    requires Inv(s) && s.cur >= 0 && Sleep(s, b, memory).Next?
    ensures On(Sleep(s, b, memory).s, a) == On(s, a) + if a == b then [s.cur] else []
    ensures Sleep(s, b, memory).s.cur == NONE
  {
    hide Woken, Inv;
    var addr := s.addr[s.cur := b];
    CurrentAwake(s);
    WokenFrame(s.asleep, s.addr, addr, a);
    WokenConcat(s.asleep, [s.cur], addr, a);
    WokenFirst(s.cur, [], addr, a);
    NoneWoken(addr, a);
    assert [s.cur] + [] == [s.cur];
  }

  lemma WakeupOn(s: Sys<Addr>, b: Addr, memory: bool, a: Addr)
    requires Wakeup(s, b, memory).Next?
    ensures On(Wakeup(s, b, memory).s, a) == if a == b then [] else On(s, a)
    ensures Wakeup(s, b, memory).s.cur == s.cur
  {
    hide Woken, Kept, WakeFrom;
    WakeupMoves(s, b, memory);
    WokenKept(s.asleep, s.addr, b, a);
  }

  lemma WakeOneOn(s: Sys<Addr>, b: Addr, memory: bool, a: Addr)
    requires WakeOne(s, b, memory).Next?
    ensures On(WakeOne(s, b, memory).s, a) == if a == b && On(s, a) != [] then On(s, a)[1..] else On(s, a)
  {
    hide Woken, RemoveAt, WakeOneFrom;
    WakeOneMoves(s, b, memory);
    var k := WakeOneFromMoves(s, 0, b, memory);
    if a != b && k < |s.asleep| {
      WokenRemove(s.asleep, k, s.addr, a);
    }
  }

  lemma OthersOn(s: Sys<Addr>, a: Addr, memory: bool)
    requires Inv(s)
    ensures s.cur >= 0 && Yield(s, memory).Next? ==> On(Yield(s, memory).s, a) == On(s, a)
    ensures s.cur >= 0 && Exit(s, memory).Next? ==> On(Exit(s, memory).s, a) == On(s, a)
    ensures s.ready != [] && Dispatch(s).Next? ==> On(Dispatch(s).s, a) == On(s, a)
  {
    hide Woken, Inv;
    CurrentAwake(s);
    if s.ready != [] {
      WokenFrame(s.asleep, s.addr, s.addr - {s.ready[0]}, a);
    }
  }

  lemma ForkOn(s: Sys<Addr>, a: Addr, t: nat, m: ForkMemory)
    requires Inv(s) && s.cur >= 0
    ensures 0 < s.qsize < Q.INT_LIMIT - 1 && s.count + 1 < Q.INT_LIMIT
    ensures Fork(s, t, m).0.Next? ==> On(Fork(s, t, m).0.s, a) == On(s, a)
  {
    hide Woken, Q.Doubled, P.NewMax, Once, Places;
  }

  lemma TryOn(s: State, c: nat, m: nat, l: nat, at: Pc, memory: bool)
    requires SInv(s) && s.sys.cur >= 0
    ensures m in s.count && m in s.ps && TryP(s, m, memory).To? ==> Waiters(TryP(s, m, memory).s, c) == Waiters(s, c)
    ensures l in s.owner && TryAcquire(s, l, at, memory).To? ==>
              Waiters(TryAcquire(s, l, at, memory).s, c) == Waiters(s, c)
  {
    hide Woken, Inv, Justified, Owned, Counted, Known, Sleep;
    if Sleep(s.sys, SemAddr(m), memory).Next? {
      SleepOn(s.sys, SemAddr(m), memory, CvAddr(c));
    }
    if Sleep(s.sys, LockAddr(l), memory).Next? {
      SleepOn(s.sys, LockAddr(l), memory, CvAddr(c));
    }
  }

  /** What a step does to those who wait on `c`. */
  function WaitersAfter(s: State, e: Event, c: nat): seq<nat>
    requires Enabled(s, e)
  {
    var w := Waiters(s, c);
    if e.EWait? && e.c == c then w + [s.sys.cur as nat]
    else if e.ESignal? && e.c == c && w != [] then w[1..]
    else if e.EBroadcast? && e.c == c then []
    else w
  }

  /**
   * The waiters of a condition variable form a queue: cv_wait joins at its end, a signal takes the first, a
   * broadcast takes all, and nothing else touches it.
   */
  lemma WaitersQueue(s: State, e: Event, c: nat)
    requires SInv(s) && Enabled(s, e) && Step(s, e).To?
    ensures Waiters(Step(s, e).s, c) == WaitersAfter(s, e, c)
  {
    hide Waiters, TryP, TryAcquire, Inv, Justified, Owned, Counted, Known, DoV, Release, Wait, Signal, Broadcast,
      Yield, Exit, Dispatch, Fork;
    match e
    case EP(m, memory) => TryOn(s, c, m, 0, Idle, memory);
    case EV(_, _) => VWaiters(s, e, c);
    case EAcquire(l, memory) => TryOn(s, c, 0, l, InAcquire(l), memory);
    case ERelease(_, _) => VWaiters(s, e, c);
    case EWait(_, l, memory) => WaitWaiters(s, e, c);
    case ESignal(_, _, _) => SignalWaiters(s, e, c);
    case EBroadcast(_, _, _) => SignalWaiters(s, e, c);
    case EResume(memory) => ResumeWaiters(s, c, memory);
    case _ => OtherWaiters(s, e, c);
  }

  lemma ResumeWaiters(s: State, c: nat, memory: bool)
    requires SInv(s) && s.sys.cur >= 0 && Resume(s, memory).To?
    ensures Waiters(Resume(s, memory).s, c) == Waiters(s, c)
  {
    hide Waiters, TryP, TryAcquire, Inv, Justified, Owned, Counted, Known;
    match PcOf(s, s.sys.cur)
    case Idle =>
    case InP(m) => TryOn(s, c, m, 0, Idle, memory);
    case InAcquire(l) => TryOn(s, c, 0, l, InAcquire(l), memory);
    case InWait(d, l) => TryOn(s, c, 0, l, InRegain(d, l), memory);
    case InRegain(d, l) => TryOn(s, c, 0, l, InRegain(d, l), memory);
  }

  lemma VWaiters(s: State, e: Event, c: nat)
    requires SInv(s) && Enabled(s, e) && Step(s, e).To? && (e.EV? || e.ERelease?)
    ensures Waiters(Step(s, e).s, c) == Waiters(s, c)
  {
    hide Woken, Wakeup, Inv, Justified, Owned, Counted, Known;
    if e.EV? {
      WakeupOn(s.sys, SemAddr(e.m), e.memory, CvAddr(c));
    } else {
      WakeupOn(s.sys, LockAddr(e.l), e.memory, CvAddr(c));
    }
  }

  lemma WaitWaiters(s: State, e: Event, c: nat)
    requires SInv(s) && Enabled(s, e) && Step(s, e).To? && e.EWait?
    ensures Waiters(Step(s, e).s, c) == WaitersAfter(s, e, c)
    ensures Step(s, e).s.sys.cur == NONE
  {
    hide Woken, Wakeup, Inv, Justified, Owned, Counted, Known, Sleep;
    WakeupOn(s.sys, LockAddr(e.l), e.memory, CvAddr(c));
    var g := Release(s, e.l, e.memory).s;
    ReleaseKeeps(s, e.l, e.memory);
    assert g.sys == Wakeup(s.sys, LockAddr(e.l), e.memory).s;
    SleepOn(g.sys, CvAddr(e.c), e.memory, CvAddr(c));
    assert Waiters(s, c) + [] == Waiters(s, c);
  }

  lemma SignalWaiters(s: State, e: Event, c: nat)
    requires SInv(s) && Enabled(s, e) && Step(s, e).To? && (e.ESignal? || e.EBroadcast?)
    ensures Waiters(Step(s, e).s, c) == WaitersAfter(s, e, c)
  {
    hide Woken, Wakeup, WakeOne, Inv, Justified, Owned, Counted, Known;
    if e.ESignal? {
      WakeOneOn(s.sys, CvAddr(e.c), e.memory, CvAddr(c));
    } else {
      WakeupOn(s.sys, CvAddr(e.c), e.memory, CvAddr(c));
    }
  }

  lemma OtherWaiters(s: State, e: Event, c: nat)
    requires SInv(s) && Enabled(s, e) && Step(s, e).To? && (e.EYield? || e.EExit? || e.EDispatch? || e.EFork?)
    ensures Waiters(Step(s, e).s, c) == Waiters(s, c)
  {
    hide Woken, On, Inv, Justified, Owned, Counted, Known, Yield, Exit, Dispatch, Fork, Census;
    match e
    case EYield(memory) => OthersOn(s.sys, CvAddr(c), memory);
    case EExit(memory) => OthersOn(s.sys, CvAddr(c), memory);
    case EDispatch => OthersOn(s.sys, CvAddr(c), false);
    case EFork(t, fm) => ForkOn(s.sys, CvAddr(c), t, fm);
  }

  /**
   * cv_wait lets go of the lock and falls asleep in one step: it is the last in the queue when others can run
   * again.
   */
  lemma WaitIsAtomic(s: State, e: Event)
    requires SInv(s) && Enabled(s, e) && Step(s, e).To? && e.EWait?
    ensures var g := Step(s, e).s;
            && s.owner[e.l] == s.sys.cur && e.l in g.owner && g.owner[e.l] == NONE && g.sys.cur == NONE
            && Waiters(g, e.c) == Waiters(s, e.c) + [s.sys.cur as nat]
  {
    hide Waiters, Wakeup, Sleep, Inv, Justified, Owned, Counted, Known;
    WaitWaiters(s, e, e.c);
  }

  function Signals(es: seq<Event>, c: nat): nat {
    if es == [] then 0 else (if es[0].ESignal? && es[0].c == c then 1 else 0) + Signals(es[1..], c)
  }

  predicate NoBroadcast(es: seq<Event>, c: nat) {
    forall e | e in es :: !(e.EBroadcast? && e.c == c)
  }

  /** Each signal brings the waiter at place `k` one place forward, whatever else happens. */
  lemma {:induction false} WaiterAdvances(s: State, es: seq<Event>, c: nat, k: nat)
    requires SInv(s) && Feasible(s, es) && After(s, es).To? && NoBroadcast(es, c)
    requires k < |Waiters(s, c)| && Signals(es, c) <= k
    ensures k - Signals(es, c) < |Waiters(After(s, es).s, c)|
    ensures Waiters(After(s, es).s, c)[k - Signals(es, c)] == Waiters(s, c)[k]
    decreases |es|
  {
    hide SInv, Step, Enabled, Waiters;
    if es != [] {
      StepKeepsSInv(s, es[0]);
      WaitersQueue(s, es[0], c);
      WaiterAdvances(Step(s, es[0]).s, es[1..], c, if es[0].ESignal? && es[0].c == c then k - 1 else k);
    }
  }

  /** A signal makes exactly one thread runnable, the one that has waited longest, when there is one. */
  lemma SignalWakesOne(s: State, e: Event)
    requires SInv(s) && Enabled(s, e) && e.ESignal? && Step(s, e).To?
    ensures var g, w := Step(s, e).s, Waiters(s, e.c);
            if w == [] then g == s
            else
              && g.sys.ready == s.sys.ready + [w[0]]
              && multiset(g.sys.asleep) == multiset(s.sys.asleep) - multiset{w[0]}
              && g.owner == s.owner && g.count == s.count && g.pc == s.pc
  {
    hide Woken, WakeOneFrom, Inv, Justified, Owned, Counted, Known;
    WakeOneMoves(s.sys, CvAddr(e.c), e.memory);
  }

  /** No signal misses a waiter: after cv_wait, the (k + 1)-th signal wakes who has `k` waiters before him. */
  lemma SignalReaches(s: State, es: seq<Event>, c: nat, k: nat, last: Event)
    requires SInv(s) && Feasible(s, es) && After(s, es).To? && NoBroadcast(es, c) && k < |Waiters(s, c)|
             && Signals(es, c) == k
    requires Enabled(After(s, es).s, last) && last.ESignal? && last.c == c && Step(After(s, es).s, last).To?
    ensures Waiters(s, c)[k] in Step(After(s, es).s, last).s.sys.ready
  {
    hide SInv, Waiters, Step, Enabled;
    WaiterAdvances(s, es, c, k);
    RunKeepsSInv(s, es);
    SignalWakesOne(After(s, es).s, last);
  }

  /** cv_wait, and lock_acquire, come back only with the lock. */
  lemma ReturnsHolding(s: State, e: Event, t: nat, l: nat)
    requires SInv(s) && Enabled(s, e) && Step(s, e).To? && t in s.pc && Wants(s.pc[t], l)
    requires PcOf(Step(s, e).s, t) == Idle && !(e.EFork? && e.t == t)
    ensures l in Step(s, e).s.owner && Step(s, e).s.owner[l] == t && (t, l) in Step(s, e).s.held
    ensures e.EResume? && s.sys.cur == t && s.owner[l] == NONE
  {
    hide Inv, Justified, Owned, Counted, Known, Step, Resume, Census;
    StepMovers(s, e);
    assert t == s.sys.cur && e.EResume?;
    ResumeHolds(s, e, l);
  }

  lemma ResumeHolds(s: State, e: Event, l: nat)
    requires Enabled(s, e) && e.EResume? && Step(s, e).To? && Wants(PcOf(s, s.sys.cur), l)
    requires PcOf(Step(s, e).s, s.sys.cur) == Idle
    ensures var g := Step(s, e).s;
            l in g.owner && g.owner[l] == s.sys.cur && (s.sys.cur as nat, l) in g.held
            && s.owner[l] == NONE
  {
    hide Sleep;
  }

  // ----- when an operation panics

  /**
   * Coming back from sleep never panics once the sleepers array has room: in particular cv_wait never finds that
   * it already has the lock.
   */
  lemma ResumeNeverFails(s: State, memory: bool)
    requires SInv(s) && s.sys.cur >= 0
    ensures Resume(s, memory).Failed? ==> s.sys.smax == 0 && !memory
  {
    hide Justified, Once, Places, Room;
    if s.sys.cur in s.pc {
      assert KnownAt(s, s.pc[s.sys.cur]);
    }
  }

  lemma SleepWorks(s: Sys<Addr>, a: Addr, memory: bool)
    requires Inv(s) && s.cur >= 0 && s.smax > 0
    ensures Sleep(s, a, memory).Next?
  {
  }

  lemma WakingWorks(s: Sys<Addr>, a: Addr, memory: bool)
    requires Inv(s) && s.cur >= 0
    ensures Wakeup(s, a, memory).Next? && WakeOne(s, a, memory).Next?
    ensures var g := Wakeup(s, a, memory).s; Inv(g) && g.cur == s.cur && g.smax == s.smax
  {
    hide Inv;
    WakeFromKeeps(s, 0, a, memory);
    WakeOneFromKeeps(s, 0, a, memory);
    WakeupMoves(s, a, memory);
  }

  /** For the rest, exactly the misuses that the code checks for. */
  lemma MisusePanics(s: State, e: Event)
    requires SInv(s) && Enabled(s, e) && s.sys.cur >= 0 && s.sys.smax > 0
    ensures e.EP? ==> Step(s, e).To?
    ensures e.EV? ==> (Step(s, e).Failed? <==> s.count[e.m] >= MAX_COUNT)
    ensures e.EAcquire? ==> (Step(s, e).Failed? <==> s.owner[e.l] == s.sys.cur)
    ensures e.ERelease? || e.EWait? || e.ESignal? || e.EBroadcast? ==>
              (Step(s, e).Failed? <==> s.owner[e.l] != s.sys.cur)
  {
    hide Inv, Justified, Owned, Known, Sleep, Wakeup, WakeOne;
    match e
    case EP(m, memory) => SleepWorks(s.sys, SemAddr(m), memory);
    case EV(m, memory) => WakingWorks(s.sys, SemAddr(m), memory);
    case EAcquire(l, memory) => SleepWorks(s.sys, LockAddr(l), memory);
    case ERelease(l, memory) => WakingWorks(s.sys, LockAddr(l), memory);
    case EWait(c, l, memory) =>
      WakingWorks(s.sys, LockAddr(l), memory);
      SleepWorks(Wakeup(s.sys, LockAddr(l), memory).s, CvAddr(c), memory);
    case ESignal(c, l, memory) => WakingWorks(s.sys, CvAddr(c), memory);
    case EBroadcast(c, l, memory) => WakingWorks(s.sys, CvAddr(c), memory);
    case _ =>
  }
}
