/** Semaphores, locks and condition variables on top of the thread system. */
module Synch {
  import Q = Queue
  import P = PtrArray
  import opened Threads

  const MAX_COUNT: int := 0x7fff_ffff

  /** The address of a primitive, which is what threads sleep on. */
  datatype Addr = SemAddr(m: nat) | LockAddr(l: nat) | CvAddr(c: nat)

  /** Where a thread is: outside all operations, or asleep inside one (or woken, but not yet back). */
  datatype Pc = Idle | InP(m: nat) | InAcquire(l: nat) | InWait(c: nat, l: nat) | InRegain(c: nat, l: nat)

  /**
   * `initial`, `vs` and `ps` record what each semaphore began with, its V's and its finished P's; `held` the
   * locks that threads were given and have not released.
   */
  datatype State = State(sys: Sys<Addr>, count: map<nat, int>, owner: map<nat, int>, pc: map<nat, Pc>,
                         initial: map<nat, int>, vs: map<nat, nat>, ps: map<nat, nat>, held: set<(nat, nat)>)

  datatype Result = To(s: State) | Failed

  function PcOf(s: State, t: int): Pc {
    if t in s.pc then s.pc[t] else Idle
  }

  // ----- the atomic regions

  function SleepAt(s: State, a: Addr, at: Pc, memory: bool): Result
    requires s.sys.cur >= 0
  {
    var r := Sleep(s.sys, a, memory);
    if r.Panic? then Failed else To(s.(sys := r.s, pc := s.pc[s.sys.cur := at]))
  }

  /** The loop of P, from one test of the count to the next. */
  function TryP(s: State, m: nat, memory: bool): Result
    requires s.sys.cur >= 0 && m in s.count && m in s.ps
  {
    if s.count[m] == 0 then SleepAt(s, SemAddr(m), InP(m), memory)
    else if s.count[m] < 0 then Failed
    else To(s.(count := s.count[m := s.count[m] - 1], ps := s.ps[m := s.ps[m] + 1], pc := s.pc[s.sys.cur := Idle]))
  }

  function DoV(s: State, m: nat, memory: bool): Result
    requires m in s.count && m in s.vs
  {
    if s.count[m] + 1 > MAX_COUNT || s.count[m] + 1 <= 0 then Failed
    else
      var r := Wakeup(s.sys, SemAddr(m), memory);
      if r.Panic? then Failed
      else To(s.(sys := r.s, count := s.count[m := s.count[m] + 1], vs := s.vs[m := s.vs[m] + 1]))
  }

  /** The loop of lock_acquire, from one test of the owner to the next. */
  function TryAcquire(s: State, l: nat, at: Pc, memory: bool): Result
    requires s.sys.cur >= 0 && l in s.owner
  {
    if s.owner[l] != NONE then SleepAt(s, LockAddr(l), at, memory)
    else To(s.(owner := s.owner[l := s.sys.cur], pc := s.pc[s.sys.cur := Idle],
        held := s.held + {(s.sys.cur as nat, l)}))
  }

  function Acquire(s: State, l: nat, at: Pc, memory: bool): Result
    requires s.sys.cur >= 0 && l in s.owner
  {
    if s.owner[l] == s.sys.cur then Failed else TryAcquire(s, l, at, memory)
  }

  function Release(s: State, l: nat, memory: bool): Result
    requires s.sys.cur >= 0 && l in s.owner
  {
    if s.owner[l] != s.sys.cur then Failed
    else
      var r := Wakeup(s.sys, LockAddr(l), memory);
      if r.Panic? then Failed
      else To(s.(sys := r.s, owner := s.owner[l := NONE], held := s.held - {(s.sys.cur as nat, l)}))
  }

  /** cv_wait up to its sleep: interrupts stay off from the release on. */
  function Wait(s: State, c: nat, l: nat, memory: bool): Result
    requires s.sys.cur >= 0 && l in s.owner
  {
    var r := Release(s, l, memory);
    if r.Failed? || r.s.sys.cur < 0 then Failed else SleepAt(r.s, CvAddr(c), InWait(c, l), memory)
  }

  function Signal(s: State, c: nat, l: nat, memory: bool): Result
    requires s.sys.cur >= 0 && l in s.owner
  {
    if s.owner[l] != s.sys.cur then Failed
    else
      var r := WakeOne(s.sys, CvAddr(c), memory);
      if r.Panic? then Failed else To(s.(sys := r.s))
  }

  function Broadcast(s: State, c: nat, l: nat, memory: bool): Result
    requires s.sys.cur >= 0 && l in s.owner
  {
    if s.owner[l] != s.sys.cur then Failed
    else
      var r := Wakeup(s.sys, CvAddr(c), memory);
      if r.Panic? then Failed else To(s.(sys := r.s))
  }

  /** What a thread does when it is given the processor in the middle of an operation. */
  function Resume(s: State, memory: bool): Result
    requires s.sys.cur >= 0
  {
    match PcOf(s, s.sys.cur)
    case Idle => To(s)
    case InP(m) => if m in s.count && m in s.ps then TryP(s, m, memory) else Failed
    case InAcquire(l) => if l in s.owner then TryAcquire(s, l, InAcquire(l), memory) else Failed
    case InWait(c, l) => if l in s.owner then Acquire(s, l, InRegain(c, l), memory) else Failed
    case InRegain(c, l) => if l in s.owner then TryAcquire(s, l, InRegain(c, l), memory) else Failed
  }

  datatype Event =
    | EP(m: nat, memory: bool) | EV(m: nat, memory: bool) | EAcquire(l: nat, memory: bool)
        | ERelease(l: nat, memory: bool)
    | EWait(c: nat, l: nat, memory: bool) | ESignal(c: nat, l: nat, memory: bool)
        | EBroadcast(c: nat, l: nat, memory: bool)
    | EResume(memory: bool) | EYield(memory: bool) | EExit(memory: bool) | EDispatch | EFork(t: nat, fm: ForkMemory)

  /** A thread outside all operations may begin any; V may also come from an interrupt handler while no thread runs. */
  predicate Enabled(s: State, e: Event) {
    var free := s.sys.cur >= 0 && PcOf(s, s.sys.cur) == Idle;
    match e
    case EP(m, _) => free && m in s.count && m in s.ps
    case EV(m, _) => (free || s.sys.cur == NONE) && m in s.count && m in s.vs
    case EAcquire(l, _) => free && l in s.owner
    case ERelease(l, _) => free && l in s.owner
    case EWait(_, l, _) => free && l in s.owner
    case ESignal(_, l, _) => free && l in s.owner
    case EBroadcast(_, l, _) => free && l in s.owner
    case EResume(_) => s.sys.cur >= 0 && !free
    case EYield(_) => free
    case EExit(_) => free
    case EDispatch => s.sys.cur == NONE && s.sys.ready != []
    case EFork(t, _) =>
      free && Census(s.sys)[t] == 0 && 0 < s.sys.qsize < Q.INT_LIMIT - 1
      && s.sys.count + 1 < Q.INT_LIMIT
  }

  function Lift(s: State, r: Outcome<Addr>): Result {
    if r.Panic? then Failed else To(s.(sys := r.s))
  }

  function Step(s: State, e: Event): Result
    requires Enabled(s, e)
  {
    match e
    case EP(m, memory) => TryP(s, m, memory)
    case EV(m, memory) => DoV(s, m, memory)
    case EAcquire(l, memory) => Acquire(s, l, InAcquire(l), memory)
    case ERelease(l, memory) => Release(s, l, memory)
    case EWait(c, l, memory) => Wait(s, c, l, memory)
    case ESignal(c, l, memory) => Signal(s, c, l, memory)
    case EBroadcast(c, l, memory) => Broadcast(s, c, l, memory)
    case EResume(memory) => Resume(s, memory)
    case EYield(memory) => Lift(s, Yield(s.sys, memory))
    case EExit(memory) => Lift(s, Exit(s.sys, memory))
    case EDispatch => Lift(s, Dispatch(s.sys))
    case EFork(t, m) => var r := Fork(s.sys, t, m); if r.1 then Lift(s.(pc := s.pc[t := Idle]), r.0) else Lift(s, r.0)
  }

  // ----- the invariant

  /** Every semaphore has what it began with, plus its V's, minus its finished P's, and never less than nothing. */
  ghost predicate Counted(s: State) {
    && s.count.Keys == s.initial.Keys == s.vs.Keys == s.ps.Keys
    && forall m | m in s.count :: s.count[m] == s.initial[m] + s.vs[m] - s.ps[m] && 0 <= s.count[m]
  }

  /** A sleeper has a reason: its semaphore is empty, or its lock is taken, or it waits for a signal. */
  predicate Reason(count: map<nat, int>, owner: map<nat, int>, at: Pc, a: Addr) {
    match at
    case Idle => false
    case InP(m) => a == SemAddr(m) && m in count && count[m] == 0
    case InAcquire(l) => a == LockAddr(l) && l in owner && owner[l] != NONE
    case InRegain(_, l) => a == LockAddr(l) && l in owner && owner[l] != NONE
    case InWait(c, _) => a == CvAddr(c)
  }

  ghost predicate Justified(s: State) {
    forall t: nat | t in s.sys.asleep :: t in s.sys.addr && Reason(s.count, s.owner, PcOf(s, t), s.sys.addr[t])
  }

  predicate Wants(at: Pc, l: nat) {
    match at
    case InAcquire(k) => k == l
    case InRegain(_, k) => k == l
    case InWait(_, k) => k == l
    case _ => false
  }

  /** The owner of a lock is not in the middle of getting it, and the owners are those who were given the locks. */
  ghost predicate Owned(s: State) {
    && (forall l | l in s.owner :: s.owner[l] >= NONE && !Wants(PcOf(s, s.owner[l]), l))
    && (forall t: nat, l: nat :: (t, l) in s.held <==> l in s.owner && s.owner[l] == t)
  }

  predicate KnownAt(s: State, at: Pc) {
    match at
    case Idle => true
    case InP(m) => m in s.count
    case InAcquire(l) => l in s.owner
    case InWait(_, l) => l in s.owner
    case InRegain(_, l) => l in s.owner
  }

  ghost predicate Known(s: State) {
    forall t | t in s.pc :: KnownAt(s, s.pc[t])
  }

  ghost predicate SInv(s: State) {
    Inv(s.sys) && Counted(s) && Justified(s) && Owned(s) && Known(s)
  }

  // ----- what each step keeps

  /** The thread that runs sleeps nowhere. */
  lemma CurrentAwake(s: Sys<Addr>)
    requires Inv(s)
    ensures s.cur >= 0 ==> s.cur !in s.asleep
    ensures s.ready != [] ==> s.ready[0] !in s.asleep
  {
    if s.cur >= 0 {
      assert Census(s)[s.cur] <= 1;
    }
    if s.ready != [] {
      OnePlace(s.cur, s.ready, s.asleep, s.dead);
    }
  }

  /** A step that only moves threads about, and puts none to sleep. */
  lemma OnlyMoves(s: State, g: Sys<Addr>)
    requires SInv(s) && Inv(g)
    requires forall t: nat | t in g.asleep ::
               t in s.sys.asleep && t in g.addr && t in s.sys.addr
               && g.addr[t] == s.sys.addr[t]
    ensures SInv(s.(sys := g))
  {
    hide Inv, Reason, Wants;
    var h := s.(sys := g);
    assert Owned(h) && Known(h) && Counted(h) by { hide Justified; }
    forall t: nat | t in g.asleep
      ensures Reason(h.count, h.owner, PcOf(h, t), g.addr[t])
    {
      assert PcOf(h, t) == PcOf(s, t);
    }
  }

  lemma SleepAtKeeps(s: State, a: Addr, at: Pc, memory: bool)
    requires SInv(s) && s.sys.cur >= 0 && SleepAt(s, a, at, memory).To?
    requires Reason(s.count, s.owner, at, a) && KnownAt(s, at)
    requires forall l | l in s.owner && s.owner[l] == s.sys.cur :: !Wants(at, l)
    ensures SInv(SleepAt(s, a, at, memory).s)
  {
    hide Inv;
    CurrentAwake(s.sys);
    SleepKeeps(s.sys, a, memory);
    var g := SleepAt(s, a, at, memory).s;
    forall t: nat | t in g.sys.asleep
      ensures t in g.sys.addr && Reason(g.count, g.owner, PcOf(g, t), g.sys.addr[t])
    {
      assert t in s.sys.asleep || t == s.sys.cur;
    }
  }

  /** Waking everybody on an address leaves asleep only those who sleep elsewhere. */
  lemma WakeupLeaves(s: Sys<Addr>, a: Addr, memory: bool)
    requires Inv(s) && Wakeup(s, a, memory).Next?
    ensures var g := Wakeup(s, a, memory).s;
            Inv(g) && g.cur == s.cur && g.addr == s.addr && g.qsize >= s.qsize
            && forall t: nat | t in g.asleep :: t in s.asleep && t in s.addr && s.addr[t] != a
  {
    WakeFromKeeps(s, 0, a, memory);
    WakeupMoves(s, a, memory);
    WakeFromGrows(s, 0, a, memory);
  }

  lemma {:induction false} WakeFromGrows(s: Sys<Addr>, i: nat, a: Addr, memory: bool)
    requires i <= |s.asleep| && WakeFrom(s, i, a, memory).Next? && s.qsize > 0
    ensures WakeFrom(s, i, a, memory).s.qsize >= s.qsize
    decreases |s.asleep| - i
  {
    hide RemoveAt;
    if i < |s.asleep| {
      if !SleepsOn(s, s.asleep[i], a) {
        WakeFromGrows(s, i + 1, a, memory);
      } else {
        WakeFromGrows(Enqueue(s.(asleep := RemoveAt(s.asleep, i)), s.asleep[i], memory).s, i, a, memory);
      }
    }
  }

  /** Nobody sleeps on a semaphore that is not empty, so nobody loses the reason to sleep. */
  lemma TakeOne(s: State, m: nat)
    requires SInv(s) && m in s.count && s.count[m] > 0
    ensures SInv(s.(count := s.count[m := s.count[m] - 1], ps := s.ps[m := s.ps[m] + 1]))
  {
    hide Inv, Owned, Known;
    var g := s.(count := s.count[m := s.count[m] - 1], ps := s.ps[m := s.ps[m] + 1]);
    SameOwners(s, g);
    assert Justified(g) by {
      forall t: nat | t in g.sys.asleep
        ensures t in g.sys.addr && Reason(g.count, g.owner, PcOf(g, t), g.sys.addr[t])
      {
        assert PcOf(g, t) == PcOf(s, t) && Reason(s.count, s.owner, PcOf(s, t), s.sys.addr[t]);
      }
    }
  }

  lemma TryPKeeps(s: State, m: nat, memory: bool)
    requires SInv(s) && s.sys.cur >= 0 && m in s.count && TryP(s, m, memory).To?
    ensures SInv(TryP(s, m, memory).s)
  {
    hide Inv, Justified, Owned, Known;
    CurrentAwake(s.sys);
    if s.count[m] == 0 {
      SleepAtKeeps(s, SemAddr(m), InP(m), memory);
    } else {
      NewIdle(s, s.sys.cur);
      TakeOne(s.(pc := s.pc[s.sys.cur := Idle]), m);
    }
  }

  lemma DoVKeeps(s: State, m: nat, memory: bool)
    requires SInv(s) && m in s.count && DoV(s, m, memory).To?
    ensures SInv(DoV(s, m, memory).s)
  {
    hide Inv, Wakeup, Owned, Known;
    WakeupLeaves(s.sys, SemAddr(m), memory);
    var g := DoV(s, m, memory).s;
    assert Owned(g) && Known(g) by { SameOwners(s, g); }
    assert Justified(g) by {
      forall t: nat | t in g.sys.asleep
        ensures t in g.sys.addr && Reason(g.count, g.owner, PcOf(g, t), g.sys.addr[t])
      {
        assert PcOf(g, t) == PcOf(s, t) && t in s.sys.asleep;
      }
    }
  }

  /** Locks know nothing of semaphores. */
  lemma SameOwners(s: State, g: State)
    requires Owned(s) && Known(s) && g.owner == s.owner && g.held == s.held && g.count.Keys == s.count.Keys
    requires g.pc == s.pc
    ensures Owned(g) && Known(g)
  {
  }

  lemma TryAcquireKeeps(s: State, l: nat, at: Pc, memory: bool)
    requires SInv(s) && s.sys.cur >= 0 && l in s.owner && TryAcquire(s, l, at, memory).To?
    requires at.InAcquire? || at.InRegain?
    requires at.l == l && s.owner[l] != s.sys.cur
    ensures SInv(TryAcquire(s, l, at, memory).s)
  {
    hide Inv;
    CurrentAwake(s.sys);
    if s.owner[l] != NONE {
      SleepAtKeeps(s, LockAddr(l), at, memory);
    }
  }

  lemma ReleaseKeeps(s: State, l: nat, memory: bool)
    requires SInv(s) && s.sys.cur >= 0 && l in s.owner && Release(s, l, memory).To?
    ensures SInv(Release(s, l, memory).s) && Release(s, l, memory).s.sys.cur == s.sys.cur
  {
    hide Inv, Wakeup;
    WakeupLeaves(s.sys, LockAddr(l), memory);
  }

  lemma WaitKeeps(s: State, c: nat, l: nat, memory: bool)
    requires SInv(s) && s.sys.cur >= 0 && l in s.owner && Wait(s, c, l, memory).To?
    ensures SInv(Wait(s, c, l, memory).s)
  {
    hide Inv, Wakeup, SleepAt, Justified, Counted;
    ReleaseKeeps(s, l, memory);
    SleepAtKeeps(Release(s, l, memory).s, CvAddr(c), InWait(c, l), memory);
  }

  lemma SignalKeeps(s: State, c: nat, l: nat, memory: bool)
    requires SInv(s) && s.sys.cur >= 0 && l in s.owner
    ensures Signal(s, c, l, memory).To? ==> SInv(Signal(s, c, l, memory).s)
    ensures Broadcast(s, c, l, memory).To? ==> SInv(Broadcast(s, c, l, memory).s)
  {
    hide Inv, Wakeup, WakeOne, Justified, Owned, Counted, Known;
    if Signal(s, c, l, memory).To? {
      WakeOneLeaves(s.sys, CvAddr(c), memory);
      AllAddressed(s);
      OnlyMoves(s, WakeOne(s.sys, CvAddr(c), memory).s);
    }
    if Broadcast(s, c, l, memory).To? {
      WakeupLeaves(s.sys, CvAddr(c), memory);
      OnlyMoves(s, Wakeup(s.sys, CvAddr(c), memory).s);
    }
  }

  lemma AllAddressed(s: State)
    requires SInv(s)
    ensures forall t: nat | t in s.sys.asleep :: t in s.sys.addr
  {
  }

  lemma WakeOneLeaves(s: Sys<Addr>, a: Addr, memory: bool)
    requires Inv(s) && WakeOne(s, a, memory).Next?
    ensures var g := WakeOne(s, a, memory).s;
            Inv(g) && g.cur == s.cur && g.addr == s.addr && forall t: nat | t in g.asleep :: t in s.asleep
  {
    hide Woken;
    WakeOneFromKeeps(s, 0, a, memory);
    WakeOneMoves(s, a, memory);
    var g := WakeOne(s, a, memory).s;
    forall t: nat | t in g.asleep
      ensures t in s.asleep
    {
      assert multiset(g.asleep)[t] > 0;
    }
  }

  lemma ResumeKeeps(s: State, memory: bool)
    requires SInv(s) && s.sys.cur >= 0 && Resume(s, memory).To?
    ensures SInv(Resume(s, memory).s)
  {
    hide Inv, Justified, TryP, TryAcquire;
    match PcOf(s, s.sys.cur)
    case Idle =>
    case InP(m) => TryPKeeps(s, m, memory);
    case InAcquire(l) => TryAcquireKeeps(s, l, InAcquire(l), memory);
    case InWait(c, l) => TryAcquireKeeps(s, l, InRegain(c, l), memory);
    case InRegain(c, l) => TryAcquireKeeps(s, l, InRegain(c, l), memory);
  }

  lemma YieldExitKeep(s: State, memory: bool)
    requires SInv(s) && s.sys.cur >= 0
    ensures Yield(s.sys, memory).Next? ==> SInv(s.(sys := Yield(s.sys, memory).s))
    ensures Exit(s.sys, memory).Next? ==> SInv(s.(sys := Exit(s.sys, memory).s))
  {
    hide Inv, Justified, Owned, Counted, Known;
    AllAddressed(s);
    if Yield(s.sys, memory).Next? {
      YieldKeeps(s.sys, memory);
      OnlyMoves(s, Yield(s.sys, memory).s);
    }
    if Exit(s.sys, memory).Next? {
      ExitKeeps(s.sys, memory);
      OnlyMoves(s, Exit(s.sys, memory).s);
    }
  }

  lemma DispatchKeepsAll(s: State)
    requires SInv(s) && s.sys.cur == NONE && s.sys.ready != []
    ensures Dispatch(s.sys).Next? && SInv(s.(sys := Dispatch(s.sys).s))
  {
    hide Inv, Justified, Owned, Counted, Known;
    AllAddressed(s);
    CurrentAwake(s.sys);
    DispatchKeeps(s.sys);
    OnlyMoves(s, Dispatch(s.sys).s);
  }

  lemma ForkKeepsAll(s: State, e: Event)
    requires SInv(s) && Enabled(s, e) && e.EFork? && Step(s, e).To?
    ensures SInv(Step(s, e).s)
  {
    hide Inv, Q.Doubled, P.NewMax, Census, Justified, Owned, Counted, Known;
    ForkKeeps(s.sys, e.t, e.fm);
    NotAsleep(s.sys, e.t);
    AllAddressed(s);
    var r := Fork(s.sys, e.t, e.fm);
    OnlyMoves(s, r.0.s);
    if r.1 {
      NewIdle(s.(sys := r.0.s), e.t);
    }
  }

  lemma NewIdle(s: State, t: nat)
    requires SInv(s) && t !in s.sys.asleep
    ensures SInv(s.(pc := s.pc[t := Idle]))
  {
    hide Inv, Reason;
    var g := s.(pc := s.pc[t := Idle]);
    forall u: nat | u in g.sys.asleep
      ensures Reason(g.count, g.owner, PcOf(g, u), g.sys.addr[u])
    {
      assert PcOf(g, u) == PcOf(s, u);
    }
  }

  lemma NotAsleep(s: Sys<Addr>, t: nat)
    requires Census(s)[t] == 0
    ensures t !in s.asleep
  {
    assert multiset(s.asleep)[t] == 0;
  }

  lemma StepKeepsSInv(s: State, e: Event)
    requires SInv(s) && Enabled(s, e) && Step(s, e).To?
    ensures SInv(Step(s, e).s)
  {
    hide Inv, Justified, Counted, TryP, TryAcquire, DoV, Release, Wait, Signal, Broadcast, Resume, Yield, Exit,
      Dispatch, Fork;
    match e
    case EP(m, memory) => assert m in s.count; TryPKeeps(s, m, memory);
    case EV(m, memory) => DoVKeeps(s, m, memory);
    case EAcquire(l, memory) => TryAcquireKeeps(s, l, InAcquire(l), memory);
    case ERelease(l, memory) => ReleaseKeeps(s, l, memory);
    case EWait(c, l, memory) => WaitKeeps(s, c, l, memory);
    case ESignal(c, l, memory) => SignalKeeps(s, c, l, memory);
    case EBroadcast(c, l, memory) => SignalKeeps(s, c, l, memory);
    case EResume(memory) => ResumeKeeps(s, memory);
    case EYield(memory) => YieldExitKeep(s, memory);
    case EExit(memory) => YieldExitKeep(s, memory);
    case EDispatch => DispatchKeepsAll(s);
    case EFork(_, _) => ForkKeepsAll(s, e);
  }
}
