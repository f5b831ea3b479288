/** Runs of the thread system: where threads are, who runs next and when memory is needed. */
module ThreadRuns {
  import Q = Queue
  import P = PtrArray
  import opened Threads

  datatype Event<A> =
    | DoYield(memory: bool) | DoSleep(a: A, memory: bool) | DoExit(memory: bool) | DoDispatch
    | DoFork(t: nat, m: ForkMemory) | DoWakeup(a: A, memory: bool) | DoWakeOne(a: A, memory: bool)

  /** Only a current thread forks, yields, sleeps and exits; interrupt handlers may wake sleepers at any time. */
  predicate Enabled<A>(s: Sys<A>, e: Event<A>) {
    match e
    case DoYield(_) => s.cur >= 0
    case DoSleep(_, _) => s.cur >= 0
    case DoExit(_) => s.cur >= 0
    case DoDispatch => s.cur == NONE && s.ready != []
    case DoFork(t, _) => s.cur >= 0 && Census(s)[t] == 0 && 0 < s.qsize < Q.INT_LIMIT - 1 && s.count + 1 < Q.INT_LIMIT
    case _ => true
  }

  function Step<A(==)>(s: Sys<A>, e: Event<A>): Outcome<A>
    requires Enabled(s, e)
  {
    match e
    case DoYield(memory) => Yield(s, memory)
    case DoSleep(a, memory) => Sleep(s, a, memory)
    case DoExit(memory) => Exit(s, memory)
    case DoDispatch => Dispatch(s)
    case DoFork(t, m) => Fork(s, t, m).0
    case DoWakeup(a, memory) => Wakeup(s, a, memory)
    case DoWakeOne(a, memory) => WakeOne(s, a, memory)
  }

  /** The steps can be taken one after the other, up to a panic. */
  predicate Feasible<A(==)>(s: Sys<A>, es: seq<Event<A>>)
    decreases |es|
  {
    es != [] ==> Enabled(s, es[0]) && var r := Step(s, es[0]); (r.Next? ==> Feasible(r.s, es[1..]))
  }

  function After<A(==)>(s: Sys<A>, es: seq<Event<A>>): Outcome<A>
    requires Feasible(s, es)
    decreases |es|
  {
    if es == [] then Next(s)
    else var r := Step(s, es[0]); if r.Panic? then Panic else After(r.s, es[1..])
  }

  lemma StepKeepsInv<A(!new)>(s: Sys<A>, e: Event<A>)
    requires Inv(s) && Enabled(s, e) && Step(s, e).Next?
    ensures Inv(Step(s, e).s)
  {
    hide Inv;
    match e
    case DoYield(memory) => YieldKeeps(s, memory);
    case DoSleep(a, memory) => SleepKeeps(s, a, memory);
    case DoExit(memory) => ExitKeeps(s, memory);
    case DoDispatch => DispatchKeeps(s);
    case DoFork(t, m) => ForkKeeps(s, t, m);
    case DoWakeup(a, memory) => WakeFromKeeps(s, 0, a, memory);
    case DoWakeOne(a, memory) => WakeOneFromKeeps(s, 0, a, memory);
  }

  /** Every state that a run reaches satisfies the invariant. */
  lemma {:induction false} RunKeepsInv<A(!new)>(s: Sys<A>, es: seq<Event<A>>)
    requires Inv(s) && Feasible(s, es) && After(s, es).Next?
    ensures Inv(After(s, es).s)
    decreases |es|
  {
    hide Inv;
    if es != [] {
      StepKeepsInv(s, es[0]);
      RunKeepsInv(Step(s, es[0]).s, es[1..]);
    }
  }

  /** A thread is in one place only, and numthreads counts those that are not zombies. */
  lemma OneOfFour<A(!new)>(s: Sys<A>, t: nat)
    requires Inv(s)
    ensures (if s.cur == t then 1 else 0) + (if t in s.ready then 1 else 0) + (if t in s.asleep then 1 else 0)
            + (if t in s.dead then 1 else 0) == (if Census(s)[t] > 0 then 1 else 0)
    ensures s.count == (if s.cur >= 0 then 1 else 0) + |s.ready| + |s.asleep|
  {
    assert Census(s)[t] <= 1;
    assert Census(s)[t] == Running(s.cur)[t] + multiset(s.ready)[t] + multiset(s.asleep)[t] + multiset(s.dead)[t];
    assert t in s.ready <==> multiset(s.ready)[t] > 0;
    assert t in s.asleep <==> multiset(s.asleep)[t] > 0;
    assert t in s.dead <==> multiset(s.dead)[t] > 0;
  }

  // ----- who runs next

  function Dispatches<A>(es: seq<Event<A>>): (n: nat) {
    if es == [] then 0 else (if es[0].DoDispatch? then 1 else 0) + Dispatches(es[1..])
  }

  /** A step other than a dispatch leaves the run queue as it is, or adds at its end. */
  lemma QueueGrows<A(!new)>(s: Sys<A>, e: Event<A>, k: nat)
    requires Enabled(s, e) && Step(s, e).Next? && k < |s.ready| && !e.DoDispatch?
    ensures k < |Step(s, e).s.ready| && Step(s, e).s.ready[k] == s.ready[k]
  {
    hide Woken, Kept, WakeFrom, WakeOneFrom, Q.Doubled, P.NewMax, Census;
    match e
    case DoWakeup(a, memory) => WakeupMoves(s, a, memory);
    case DoWakeOne(a, memory) => WakeOneMoves(s, a, memory);
    case _ =>
  }

  /** Whatever else happens, each dispatch moves the thread at place `k` one place forward. */
  lemma {:induction false} DispatchOrder<A(!new)>(s: Sys<A>, es: seq<Event<A>>, k: nat)
    requires Feasible(s, es) && After(s, es).Next? && k < |s.ready| && Dispatches(es) <= k
    ensures k - Dispatches(es) < |After(s, es).s.ready|
    ensures After(s, es).s.ready[k - Dispatches(es)] == s.ready[k]
    decreases |es|
  {
    hide Enabled;
    if es != [] {
      var g := Step(s, es[0]).s;
      if es[0].DoDispatch? {
        DispatchTakes(s, es[0]);
        DispatchOrder(g, es[1..], k - 1);
      } else {
        QueueGrows(s, es[0], k);
        DispatchOrder(g, es[1..], k);
      }
    }
  }

  lemma DispatchTakes<A(!new)>(s: Sys<A>, e: Event<A>)
    requires Enabled(s, e) && e.DoDispatch? && Step(s, e).Next?
    ensures s.ready != [] && Step(s, e).s.ready == s.ready[1..] && Step(s, e).s.cur == s.ready[0]
  {
  }

  /** The thread at place `k` of the run queue is the one that the (k + 1)-th scheduler call returns. */
  lemma RunsInTurn<A(!new)>(s: Sys<A>, es: seq<Event<A>>, k: nat, last: Event<A>)
    requires Feasible(s, es) && After(s, es).Next? && k < |s.ready| && Dispatches(es) == k
    requires Enabled(After(s, es).s, last) && last.DoDispatch? && Step(After(s, es).s, last).Next?
    ensures Step(After(s, es).s, last).s.cur == s.ready[k]
  {
    DispatchOrder(s, es, k);
    DispatchTakes(After(s, es).s, last);
  }

  // ----- when memory is needed

  /** With room in the sleepers array, however full it is, a thread goes to sleep without any memory. */
  lemma SleepNeedsNoMemory<A(!new)>(s: Sys<A>, a: A, memory: bool)
    requires Inv(s) && s.cur >= 0
    ensures s.smax > 0 ==> Sleep(s, a, memory).Next? && Sleep(s, a, memory).s.smax == s.smax
    ensures s.smax == 0 ==> (Sleep(s, a, memory).Next? <==> memory)
  {
  }

  lemma StepKeepsSleepers<A(!new)>(s: Sys<A>, e: Event<A>)
    requires Inv(s) && Enabled(s, e) && Step(s, e).Next?
    ensures Step(s, e).s.smax >= s.smax
  {
    hide Woken, Kept, WakeFrom, WakeOneFrom, Q.Doubled, P.NewMax, Census;
    match e
    case DoWakeup(a, memory) => WakeupMoves(s, a, memory);
    case DoWakeOne(a, memory) => WakeOneMoves(s, a, memory);
    case _ =>
  }

  /** Once a fork has succeeded, in all that follows going to sleep never needs memory. */
  lemma SleepersNeverAllocate<A(!new)>(s: Sys<A>, t: nat, m: ForkMemory, es: seq<Event<A>>, a: A, memory: bool)
    requires Inv(s) && s.cur >= 0 && Census(s)[t] == 0 && Fork(s, t, m).1 && Fork(s, t, m).0.Next?
    requires var g := Fork(s, t, m).0.s; Feasible(g, es) && After(g, es).Next? && After(g, es).s.cur >= 0
    ensures var g := After(Fork(s, t, m).0.s, es).s; Sleep(g, a, memory).Next? && Sleep(g, a, memory).s.smax == g.smax
  {
    hide Once, Places, Q.Doubled, P.NewMax;
    var g := Fork(s, t, m).0.s;
    ForkKeeps(s, t, m);
    SleepersStay(g, es);
    RunKeepsInv(g, es);
    SleepNeedsNoMemory(After(g, es).s, a, memory);
  }

  lemma {:induction false} SleepersStay<A(!new)>(s: Sys<A>, es: seq<Event<A>>)
    requires Inv(s) && Feasible(s, es) && After(s, es).Next?
    ensures After(s, es).s.smax >= s.smax
    decreases |es|
  {
    hide Inv, Step;
    if es != [] {
      StepKeepsInv(s, es[0]);
      StepKeepsSleepers(s, es[0]);
      SleepersStay(Step(s, es[0]).s, es[1..]);
    }
  }

  /** The run queue grows exactly when every thread but those in the queue is the one added to it. */
  lemma YieldPanics<A(!new)>(s: Sys<A>, memory: bool)
    requires Inv(s) && s.cur >= 0
    ensures Yield(s, memory).Panic? <==> s.asleep == [] && s.count == s.qsize && !(memory && 2 * s.qsize < Q.INT_LIMIT)
  {
  }

  lemma ExitPanics<A(!new)>(s: Sys<A>, memory: bool)
    requires Inv(s) && s.cur >= 0
    ensures Exit(s, memory).Panic? <==> |s.dead| == s.zmax && !memory
  {
  }

  lemma OneDoubling(size: int, n: int)
    requires 0 < size < Q.INT_LIMIT - 1 && n <= size + 1
    ensures n < Q.INT_LIMIT && (n > size && 2 * size < Q.INT_LIMIT ==> Q.Doubled(size, n) == 2 * size >= n)
  {
  }

  /** A thread that runs can wake others, and fork, without a panic; so can the scheduler dispatch. */
  lemma NoOtherPanics<A(!new)>(s: Sys<A>, e: Event<A>)
    requires Inv(s) && Enabled(s, e) && Step(s, e).Panic?
    ensures e.DoYield? || e.DoExit? || (e.DoSleep? && s.smax == 0) || (s.cur == NONE && (e.DoWakeup? || e.DoWakeOne?))
            || (e.DoFork? && s.count + 1 > s.qsize && 2 * s.qsize >= Q.INT_LIMIT)
  {
    hide Woken, Kept, WakeFrom, WakeOneFrom, P.NewMax, Census, Once, Q.Doubled;
    match e
    case DoWakeup(a, memory) => WakeFromKeeps(s, 0, a, memory);
    case DoWakeOne(a, memory) => WakeOneFromKeeps(s, 0, a, memory);
    case DoDispatch => DispatchKeeps(s);
    case DoFork(t, m) =>
      OneDoubling(s.qsize, s.count + 1);
    case _ =>
  }

  /** Waking from an interrupt handler in the idle loop panics exactly when the ring cannot take all the threads. */
  lemma {:induction false} IdleWakePanics<A(!new)>(s: Sys<A>, i: nat, a: A, memory: bool)
    requires Inv(s) && s.cur == NONE && i <= |s.asleep|
    ensures WakeFrom(s, i, a, memory).Panic? <==>
              |s.ready| + |Woken(s.asleep[i..], s.addr, a)| >= s.qsize && !(memory && 2 * s.qsize < Q.INT_LIMIT)
    decreases |s.asleep| - i
  {
    hide Woken, Kept, Once, Places, RemoveAt;
    NoneWoken(s.addr, a);
    if i == |s.asleep| {
      assert s.asleep[i..] == [];
    } else {
      var x, tail := s.asleep[i], s.asleep[i + 1..];
      RemoveInside(s.asleep, i);
      WokenFirst(x, tail, s.addr, a);
      if !SleepsOn(s, x, a) {
        IdleWakePanics(s, i + 1, a, memory);
      } else {
        MoveKeeps(s, i, memory);
        MoveEffect(s, i, memory);
        var r := Enqueue(s.(asleep := RemoveAt(s.asleep, i)), x, memory);
        if r.Next? {
          IdleWakePanics(r.s, i, a, memory);
          WokenBound(tail, s.addr, a);
        }
      }
    }
  }

  lemma {:induction false} WokenBound<A(!new)>(l: seq<nat>, addr: map<nat, A>, a: A)
    ensures |Woken(l, addr, a)| <= |l|
  {
    if l != [] {
      WokenBound(l[1..], addr, a);
    }
  }

  // ----- two preallocations that are not enough

  const ALL_FINE: ForkMemory := ForkMemory(true, true, true, true)

  /** Threads `lo` to `lo + n - 1`. */
  function Range(lo: nat, n: nat): (l: seq<nat>)
    ensures |l| == n
    ensures forall i: nat | i < n :: l[i] == lo + i
  {
    seq(n, i requires 0 <= i < n => lo + i)
  }

  function Members(l: seq<nat>): set<nat> {
    set t | t in l
  }

  function Behind(j: nat, n: nat): set<nat>
    requires j <= n
  {
    Members(Range(j + 1, n - j))
  }

  /** The boot thread after `n` successful forks. */
  function Forked<A>(n: nat, max: nat): Sys<A> {
    Turned(n, max, 0)
  }

  /** After `n` forks and `j` calls of thread_yield: thread `j` runs, and those behind it have never run. */
  function Turned<A>(n: nat, max: nat, j: nat): Sys<A>
    requires j <= n
  {
    Sys(j, Range(j + 1, n - j) + Range(0, j), FIRST_QUEUE_SIZE, [], max, [], max, n + 1, map[], Behind(j, n))
  }

  /** The capacity after `n` forks. */
  function ForkMax(n: nat): nat {
    if n == 0 then 0 else P.NewMax(ForkMax(n - 1), n + 1)
  }

  function Forks<A>(n: nat): (es: seq<Event<A>>) {
    if n == 0 then [] else Forks(n - 1) + [DoFork(n, ALL_FINE)]
  }

  lemma {:induction false} AfterMore<A(!new)>(s: Sys<A>, es: seq<Event<A>>, e: Event<A>)
    requires Feasible(s, es) && After(s, es).Next? && Enabled(After(s, es).s, e)
    ensures Feasible(s, es + [e]) && After(s, es + [e]) == Step(After(s, es).s, e)
    decreases |es|
  {
    hide Enabled, Step;
    if es == [] {
      assert es + [e] == [e] && [e][1..] == [];
    } else {
      assert (es + [e])[1..] == es[1..] + [e];
      AfterMore(Step(s, es[0]).s, es[1..], e);
    }
  }

  lemma NotForked<A(!new)>(n: nat, max: nat)
    ensures Census(Forked<A>(n, max))[n + 1] == 0
  {
    assert n + 1 !in Range(1, n) + Range(0, 0);
  }

  lemma ForkStep<A(!new)>(n: nat)
    requires 0 < n <= 31
    ensures var s := Forked<A>(n - 1, ForkMax(n - 1));
            Enabled(s, DoFork(n, ALL_FINE)) && Step(s, DoFork(n, ALL_FINE)) == Next(Forked(n, ForkMax(n)))
  {
    hide Census, P.NewMax;
    NotForked<A>(n - 1, ForkMax(n - 1));
    assert Range(1, n - 1) + Range(0, 0) + [n] == Range(1, n) + Range(0, 0);
    assert Range(1, n) == Range(1, n - 1) + [n];
    assert Behind(0, n - 1) + {n} == Behind(0, n);
  }

  lemma {:induction false} ForksReach<A(!new)>(n: nat)
    requires n <= 31
    ensures Feasible(Boot<A>(), Forks<A>(n)) && After(Boot<A>(), Forks<A>(n)) == Next(Forked(n, ForkMax(n)))
  {
    hide Enabled, Step;
    if n == 0 {
      assert Range(1, 0) + Range(0, 0) == [];
      assert Behind(0, 0) == {};
    } else {
      ForksReach<A>(n - 1);
      ForkStep<A>(n);
      AfterMore(Boot<A>(), Forks<A>(n - 1), DoFork(n, ALL_FINE));
    }
  }

  /** scheduler_preallocate asks for one slot too few: after 31 forks, all preallocated, a yield still needs memory. */
  lemma RunQueueIsOneShort<A(!new)>()
    ensures Feasible(Boot<A>(), Forks<A>(31) + [DoYield(false)])
            && After(Boot<A>(), Forks<A>(31) + [DoYield(false)]) == Panic
  {
    ForksReach<A>(31);
    AfterMore(Boot<A>(), Forks<A>(31), DoYield(false));
  }

  lemma ForkMax14()
    ensures ForkMax(14) == 30
  {
    assert ForkMax(1) == 2 && ForkMax(2) == 6 && ForkMax(3) == 6 && ForkMax(4) == 6 && ForkMax(5) == 6;
    assert ForkMax(6) == 14 && ForkMax(7) == 14 && ForkMax(8) == 14 && ForkMax(9) == 14 && ForkMax(10) == 14;
    assert ForkMax(11) == 14 && ForkMax(12) == 14 && ForkMax(13) == 14;
  }

  /** `j` times the running thread yields and the next one goes on. */
  function Turns<A>(j: nat): (es: seq<Event<A>>) {
    if j == 0 then [] else Turns(j - 1) + [DoYield(false)] + [DoDispatch]
  }

  lemma TurnStep<A(!new)>(n: nat, max: nat, j: nat)
    requires j < n < FIRST_QUEUE_SIZE - 1
    ensures var s := Turned<A>(n, max, j); Enabled(s, DoYield(false)) && Step(s, DoYield(false)).Next?
    ensures var g := Step(Turned<A>(n, max, j), DoYield(false)).s;
            Enabled(g, DoDispatch) && Step(g, DoDispatch) == Next(Turned(n, max, j + 1))
  {
    var s := Turned<A>(n, max, j);
    assert s.ready + [j] == [j + 1] + Range(j + 2, n - j - 1) + Range(0, j + 1);
    assert Range(j + 1, n - j) == [j + 1] + Range(j + 2, n - j - 1);
    assert Behind(j, n) - {j + 1} == Behind(j + 1, n);
  }

  lemma {:induction false} TurnsReach<A(!new)>(n: nat, j: nat)
    requires j <= n < FIRST_QUEUE_SIZE - 1
    ensures Feasible(Boot<A>(), Forks<A>(n) + Turns(j))
    ensures After(Boot<A>(), Forks<A>(n) + Turns(j)) == Next(Turned(n, ForkMax(n), j))
  {
    hide Enabled, Step, Turned, Behind;
    if j == 0 {
      ForksReach<A>(n);
      assert Forks<A>(n) + [] == Forks<A>(n);
    } else {
      TurnsReach<A>(n, j - 1);
      TurnStep<A>(n, ForkMax(n), j - 1);
      var es := Forks<A>(n) + Turns(j - 1);
      AfterMore(Boot<A>(), es, DoYield(false));
      AfterMore(Boot<A>(), es + [DoYield(false)], DoDispatch);
      assert Forks<A>(n) + Turns(j) == es + [DoYield(false)] + [DoDispatch];
    }
  }

  /** The thread that forked the others has its turn again: it is the first that does not begin in mi_threadstart. */
  lemma BackToFirst<A(!new)>(n: nat, max: nat)
    requires n < FIRST_QUEUE_SIZE - 1 && max > 16
    ensures var s := Turned<A>(n, max, n); Enabled(s, DoYield(false)) && Step(s, DoYield(false)).Next?
    ensures var g := Step(Turned<A>(n, max, n), DoYield(false)).s;
            Enabled(g, DoDispatch) && Step(g, DoDispatch) == Next(g.(cur := 0, ready := g.ready[1..], zmax := 0))
  {
    var s := Turned<A>(n, max, n);
    assert s.ready + [n] == [0] + Range(1, n);
    assert Behind(n, n) == {};
  }

  /** After one turn of all threads but itself, thread 0 goes on, and there is no room for zombies any more. */
  lemma RoundReach<A(!new)>(n: nat) returns (s: Sys<A>)
    requires n < FIRST_QUEUE_SIZE - 1 && ForkMax(n) > 16
    ensures Feasible(Boot<A>(), Forks<A>(n) + Turns(n + 1)) && After(Boot<A>(), Forks<A>(n) + Turns(n + 1)) == Next(s)
    ensures s.cur == 0 && s.dead == [] && s.zmax == 0
  {
    hide Enabled, Step, Feasible, After, Forks, Turned, Behind, ForkMax;
    TurnsReach<A>(n, n);
    BackToFirst<A>(n, ForkMax(n));
    YieldedDead<A>(n, ForkMax(n), n);
    var es := Forks<A>(n) + Turns(n);
    var g := Step(Turned<A>(n, ForkMax(n), n), DoYield(false)).s;
    AfterMore(Boot<A>(), es, DoYield(false));
    AfterMore(Boot<A>(), es + [DoYield(false)], DoDispatch);
    assert Forks<A>(n) + Turns(n + 1) == es + [DoYield(false)] + [DoDispatch];
    s := g.(cur := 0, ready := g.ready[1..], zmax := 0);
  }

  /**
   * The room for zombies is given away by the first thread that goes on: 14 forks, all preallocated, one turn of
   * every thread, and the next exit needs memory.
   */
  lemma ZombieRoomIsLost<A(!new)>()
    ensures var es := Forks<A>(14) + Turns(15) + [DoExit(false)];
            Feasible(Boot<A>(), es) && After(Boot<A>(), es) == Panic
  {
    hide Enabled, Step, Feasible, After, Forks, Turns, ForkMax;
    ForkMax14();
    var s := RoundReach<A>(14);
    StepExit(s);
    AfterMore(Boot<A>(), Forks<A>(14) + Turns(15), DoExit(false));
  }

  lemma YieldedDead<A(!new)>(n: nat, max: nat, j: nat)
    requires j <= n
    ensures var s := Turned<A>(n, max, j);
            Enabled(s, DoYield(false)) && Step(s, DoYield(false)).Next? ==> Step(s, DoYield(false)).s.dead == []
  {
  }

  lemma StepExit<A(!new)>(s: Sys<A>)
    requires s.cur >= 0 && s.dead == [] && s.zmax == 0
    ensures Enabled(s, DoExit(false)) && Step(s, DoExit(false)) == Panic
  {
  }
}
