/** The thread system as the kernel keeps it: a ring for the run queue and arrays for sleepers and zombies. */
module ThreadKernel {
  import Q = Queue
  import P = PtrArray
  import opened Threads

  /** What a step asked for becomes of the system; a panic says nothing about what is left. */
  ghost predicate Went<A(!new)>(want: Outcome<A>, panicked: bool, s: Sys<A>) {
    panicked == want.Panic? && (want.Next? ==> s == want.s)
  }

  /** What becomes of the sizes when room is made for one thread more. */
  ghost predicate Roomy<A(!new)>(s: Sys<A>, m: ForkMemory, g: Sys<A>, ok: bool, panicked: bool)
    requires 0 < s.qsize < Q.INT_LIMIT - 1 && s.count + 1 < Q.INT_LIMIT
  {
    var n := s.count + 1;
    var full := n > s.qsize && Q.Doubled(s.qsize, n) < n;
    && panicked == (m.sleepers && m.zombies && full)
    && ok == (m.sleepers && m.zombies && !full && (n > s.qsize ==> m.queue))
    && (!panicked ==>
          g == s.(smax := if m.sleepers then P.NewMax(s.smax, n) else s.smax,
                  zmax := if m.sleepers && m.zombies then P.NewMax(s.zmax, n) else s.zmax,
                  qsize := if ok && n > s.qsize then Q.Doubled(s.qsize, n) else s.qsize))
  }

  /** What becomes of a new thread that is put into the run queue. */
  ghost predicate Enlisted<A(!new)>(g: Sys<A>, t: nat, memory: bool, h: Sys<A>, ok: bool, panicked: bool) {
    var e := g.(ready := g.ready + [t], count := g.count + 1, unborn := g.unborn + {t});
    if |g.ready| != g.qsize - 1 then ok && !panicked && h == e
    else if 2 * g.qsize >= Q.INT_LIMIT then !ok && panicked
    else if !memory then !ok && !panicked && h == g
    else ok && !panicked && h == e.(qsize := 2 * g.qsize)
  }

  /** thread_fork is these two parts. */
  lemma ForkByParts<A(!new)>(s: Sys<A>, t: nat, m: ForkMemory, g: Sys<A>, room: bool, panic: bool, h: Sys<A>, ok: bool,
                             panicked: bool)
    requires 0 < s.qsize < Q.INT_LIMIT - 1 && s.count + 1 < Q.INT_LIMIT && m.thread && Roomy(s, m, g, room, panic)
    requires if room then Enlisted(g, t, m.queue, h, ok, panicked) else h == g && !ok && panicked == panic
    ensures Went(Fork(s, t, m).0, panicked, h) && (!panicked ==> ok == Fork(s, t, m).1)
  {
    hide Q.Doubled, P.NewMax;
  }

  lemma NoThread<A(!new)>(s: Sys<A>, t: nat, m: ForkMemory)
    requires 0 < s.qsize < Q.INT_LIMIT - 1 && s.count + 1 < Q.INT_LIMIT && !m.thread
    ensures Fork(s, t, m) == (Next(s), false) && Went(Fork(s, t, m).0, false, s)
  {
  }

  class ThreadKernel<A(==,!new)> {
    const runqueue: Q.Queue<nat>
    const sleepers: P.PtrArray<nat>
    const zombies: P.PtrArray<nat>
    var curthread: int
    var numthreads: nat
    var sleepaddr: map<nat, A>
    var unborn: set<nat>

    ghost function Slots(p: P.PtrArray<nat>): set<object>
      reads p
    {
      if p.v == null then {} else {p.v}
    }

    ghost function Repr(): set<object>
      reads this, runqueue, sleepers, zombies
    {
      {this, runqueue, runqueue.data, sleepers, zombies} + Slots(sleepers) + Slots(zombies)
    }

    /** The parts do not share memory. */
    ghost predicate Apart()
      reads this, runqueue, sleepers, zombies
    {
      && runqueue.Valid() && sleepers.Valid() && zombies.Valid() && sleepers != zombies
      && runqueue.data != sleepers.v && runqueue.data != zombies.v && (sleepers.v == zombies.v ==> sleepers.v == null)
    }

    ghost function View(): Sys<A>
      requires Apart()
      reads this, runqueue, sleepers, zombies, Repr()
    {
      Sys(curthread, runqueue.Contents(), runqueue.size, sleepers.Contents(), sleepers.max, zombies.Contents(),
          zombies.max,
          numthreads, sleepaddr, unborn)
    }

    ghost predicate Valid()
      reads this, runqueue, sleepers, zombies, Repr()
    {
      Apart() && Inv(View())
    }

    /** scheduler_bootstrap and thread_bootstrap: the running code becomes thread 0. */
    constructor ()
      ensures Valid() && View() == Boot<A>() && fresh(Repr())
    {
      runqueue := new Q.Queue(FIRST_QUEUE_SIZE);
      sleepers := new P.PtrArray();
      zombies := new P.PtrArray();
      curthread := 0;
      numthreads := 1;
      sleepaddr := map[];
      unborn := {};
      new;
      BootInv<A>();
    }

    method MakeRunnable(t: nat, memory: bool) returns (panicked: bool)
      requires Apart()
      modifies Repr()
      ensures Apart() && Went(Enqueue(old(View()), t, memory), panicked, View()) && fresh(Repr() - old(Repr()))
      ensures curthread == old(curthread) && numthreads == old(numthreads)
      ensures sleepaddr == old(sleepaddr) && unborn == old(unborn)
      ensures sleepers.v == old(sleepers.v) && zombies.v == old(zombies.v)
      ensures runqueue.data == old(runqueue.data) || fresh(runqueue.data)
    {
      var r := runqueue.AddTail(t, memory);
      panicked := !r.Ok?;
    }

    method ThreadYield(memory: bool) returns (panicked: bool)
      requires Valid() && curthread >= 0
      modifies Repr()
      ensures Apart() && Went(Yield(old(View()), memory), panicked, View()) && (!panicked ==> Valid())
              && fresh(Repr() - old(Repr()))
    {
      hide Inv, Once, Places, Q.Ring;
      ghost var s := View();
      var cur := curthread;
      curthread := NONE;
      panicked := MakeRunnable(cur, memory);
      if !panicked {
        YieldKeeps(s, memory);
      }
    }

    method ThreadSleep(a: A, memory: bool) returns (panicked: bool)
      requires Valid() && curthread >= 0
      modifies Repr()
      ensures Apart() && Went(Sleep(old(View()), a, memory), panicked, View()) && (!panicked ==> Valid())
              && fresh(Repr() - old(Repr()))
    {
      hide Inv, Once, Places, Q.Ring;
      ghost var s := View();
      var cur := curthread;
      sleepaddr := sleepaddr[cur := a];
      curthread := NONE;
      var ok := sleepers.Add(cur, memory);
      panicked := !ok;
      if ok {
        SleepKeeps(s, a, memory);
      }
    }

    method ThreadExit(memory: bool) returns (panicked: bool)
      requires Valid() && curthread >= 0
      modifies Repr()
      ensures Apart() && Went(Exit(old(View()), memory), panicked, View()) && (!panicked ==> Valid())
              && fresh(Repr() - old(Repr()))
    {
      hide Inv, Once, Places, Q.Ring;
      ghost var s := View();
      if numthreads == 0 {
        return true;
      }
      numthreads := numthreads - 1;
      var cur := curthread;
      curthread := NONE;
      var ok := zombies.Add(cur, memory);
      panicked := !ok;
      if ok {
        ExitKeeps(s, memory);
      }
    }

    method Exorcise() returns (panicked: bool)
      requires Apart() && curthread >= 0
      modifies zombies
      ensures panicked <==> curthread in old(zombies.Contents())
      ensures Apart() && (!panicked ==> View() == Exorcised(old(View()))) && fresh(Repr() - old(Repr()))
    {
      var i := 0;
      while i < zombies.num
        invariant i <= zombies.num && forall j: nat | j < i :: zombies.Contents()[j] != curthread
        modifies {}
      {
        var z := zombies.Get(i);
        if z == curthread {
          assert zombies.Contents()[i] == z;
          return true;
        }
        i := i + 1;
      }
      ghost var was := zombies.Contents();
      assert forall j: nat | j < |was| :: was[j] != curthread;
      assert curthread !in was;
      var ok := zombies.SetSize(0, false);
      assert zombies.Contents() == [];
      panicked := false;
    }

    /** The rest of mi_switch, from the call of the scheduler on: the thread at the head of the queue goes on. */
    method SwitchIn() returns (panicked: bool)
      requires Valid() && curthread == NONE && runqueue.Contents() != []
      modifies Repr()
      ensures Apart() && Went(Dispatch(old(View())), panicked, View()) && (!panicked ==> Valid())
              && fresh(Repr() - old(Repr()))
    {
      hide Inv, Once, Places, Q.Ring;
      ghost var s := View();
      DispatchKeeps(s);
      var next := runqueue.RemHead();
      assert runqueue.Contents() == s.ready[1..] && next == s.ready[0];
      curthread := next;
      sleepaddr := sleepaddr - {next};
      var newborn := next in unborn;
      unborn := unborn - {next};
      panicked := false;
      if !newborn {
        panicked := Exorcise();
      }
    }

    /** The room that thread_fork makes for one thread more. */
    method MakeRoom(m: ForkMemory) returns (ok: bool, panicked: bool)
      requires Apart() && numthreads + 1 < Q.INT_LIMIT
      modifies Repr()
      ensures Apart() && fresh(Repr() - old(Repr()))
      ensures Roomy(old(View()), m, View(), ok, panicked)
    {
      hide Q.Ring, Q.Doubled, P.NewMax;
      ok := false;
      panicked := false;
      var r := sleepers.Preallocate(numthreads + 1, m.sleepers);
      if !r {
        return;
      }
      r := zombies.Preallocate(numthreads + 1, m.zombies);
      if !r {
        return;
      }
      var q := runqueue.Preallocate(numthreads + 1, m.queue);
      ok := q.Ok?;
      panicked := q.Panicked?;
    }

    /**
     * thread_fork from where interrupts are off; `t` is the new thread, which has its stack when `m.thread`
     * says so.
     */
    method ThreadFork(t: nat, m: ForkMemory) returns (ok: bool, panicked: bool)
      requires Valid() && curthread >= 0 && Census(View())[t] == 0
      modifies Repr()
      ensures Apart() && Went(Fork(old(View()), t, m).0, panicked, View()) && (!panicked ==> Valid())
              && fresh(Repr() - old(Repr()))
      ensures !panicked ==> ok == Fork(old(View()), t, m).1
    {
      hide Inv, Census, Q.Ring, Fork, Roomy, Enlisted;
      ghost var s := View();
      InvBounds(s);
      if Fork(s, t, m).0.Next? {
        ForkKeeps(s, t, m);
      }
      ok := false;
      panicked := false;
      if !m.thread {
        NoThread(s, t, m);
        return;
      }
      ok, panicked := MakeRoom(m);
      ghost var g, room, panic := View(), ok, panicked;
      if ok {
        ok, panicked := Enlist(t, m.queue);
      }
      ForkByParts(s, t, m, g, room, panic, View(), ok, panicked);
    }

    /** The end of thread_fork: the new thread enters the run queue and is counted. */
    method Enlist(t: nat, memory: bool) returns (ok: bool, panicked: bool)
      requires Apart()
      modifies Repr()
      ensures Apart() && fresh(Repr() - old(Repr()))
      ensures Enlisted(old(View()), t, memory, View(), ok, panicked)
    {
      hide Q.Ring;
      var q := runqueue.AddTail(t, memory);
      ok := q.Ok?;
      panicked := q.Panicked?;
      if ok {
        numthreads := numthreads + 1;
        unborn := unborn + {t};
      }
    }

    /** Takes the sleeper at place `i` off its list and makes it runnable. */
    method Rouse(i: nat, memory: bool) returns (panicked: bool)
      requires Apart() && i < sleepers.num
      modifies Repr()
      ensures Apart() && sleepers.v == old(sleepers.v) && zombies.v == old(zombies.v)
      ensures runqueue.data == old(runqueue.data) || fresh(runqueue.data)
      ensures var s := old(View());
              Went(Enqueue(s.(asleep := RemoveAt(s.asleep, i)), s.asleep[i], memory), panicked, View())
    {
      hide Q.Ring, RemoveAt, Enqueue;
      ghost var s := View();
      RemoveAtIs(s.asleep, i);
      var t := sleepers.Get(i);
      sleepers.Remove(i);
      assert View() == s.(asleep := RemoveAt(s.asleep, i));
      panicked := MakeRunnable(t, memory);
    }

    /** thread_wakeup. */
    method ThreadWakeup(a: A, memory: bool) returns (panicked: bool)
      requires Valid()
      modifies Repr()
      ensures Apart() && Went(Wakeup(old(View()), a, memory), panicked, View()) && (!panicked ==> Valid())
              && fresh(Repr() - old(Repr()))
    {
      hide Inv, Enqueue, WakeFrom, Q.Ring, RemoveAt;
      ghost var s := View();
      WakeFromKeeps(s, 0, a, memory);
      panicked := false;
      var i := 0;
      while i < sleepers.num
        invariant Apart() && i <= sleepers.num && sleepers.v == old(sleepers.v) && zombies.v == old(zombies.v)
        invariant runqueue.data == old(runqueue.data) || fresh(runqueue.data)
        invariant WakeFrom(View(), i, a, memory) == WakeFrom(s, 0, a, memory)
        decreases sleepers.num - i
      {
        ghost var g := View();
        WakeFromStep(g, i, a, memory);
        var t := sleepers.Get(i);
        if t in sleepaddr && sleepaddr[t] == a {
          MoveEffect(g, i, memory);
          panicked := Rouse(i, memory);
          if panicked {
            return;
          }
        } else {
          i := i + 1;
        }
      }
      WakeFromStep(View(), i, a, memory);
    }

    /** The first place with a thread that sleeps on `a`, or the number of sleepers. */
    method FindSleeper(a: A, ghost s: Sys<A>) returns (i: nat)
      requires Apart() && s == View()
      ensures i <= |s.asleep| && (i < |s.asleep| ==> SleepsOn(s, s.asleep[i], a))
      ensures forall j: nat | j < i :: !SleepsOn(s, s.asleep[j], a)
    {
      hide Q.Ring;
      i := 0;
      while i < sleepers.num
        invariant i <= sleepers.num && forall j: nat | j < i :: !SleepsOn(s, s.asleep[j], a)
        modifies {}
      {
        var t := sleepers.Get(i);
        if t in sleepaddr && sleepaddr[t] == a {
          return;
        }
        i := i + 1;
      }
    }

    /** thread_wakeone. */
    method ThreadWakeone(a: A, memory: bool) returns (panicked: bool)
      requires Valid()
      modifies Repr()
      ensures Apart() && Went(WakeOne(old(View()), a, memory), panicked, View()) && (!panicked ==> Valid())
              && fresh(Repr() - old(Repr()))
    {
      hide Inv, Enqueue, WakeOneFrom, Q.Ring, RemoveAt, SleepsOn;
      ghost var s := View();
      WakeOneFromKeeps(s, 0, a, memory);
      panicked := false;
      var i := FindSleeper(a, s);
      SkipTo(s, 0, i, a, memory);
      WakeOneFromStep(s, i, a, memory);
      if i < sleepers.num {
        panicked := Rouse(i, memory);
      }
    }

    /** thread_hassleepers. */
    method HasSleepers(a: A) returns (some: bool)
      requires Valid()
      ensures some <==> Woken(View().asleep, View().addr, a) != []
    {
      hide Q.Ring, Inv;
      ghost var s := View();
      var i := FindSleeper(a, s);
      some := i < sleepers.num;
      assert some ==> s.asleep[i] in s.asleep;
      NoneFound(Woken(s.asleep, s.addr, a));
    }
  }

  lemma {:induction false} SkipTo<A(!new)>(s: Sys<A>, i: nat, k: nat, a: A, memory: bool)
    requires i <= k <= |s.asleep| && forall j: nat | j < k :: !SleepsOn(s, s.asleep[j], a)
    ensures WakeOneFrom(s, i, a, memory) == WakeOneFrom(s, k, a, memory)
    decreases k - i
  {
    if i < k {
      SkipTo(s, i + 1, k, a, memory);
    }
  }

  lemma WakeFromStep<A(!new)>(s: Sys<A>, i: nat, a: A, memory: bool)
    requires i <= |s.asleep|
    ensures WakeFrom(s, i, a, memory)
         == if i == |s.asleep| then Next(s)
            else if !SleepsOn(s, s.asleep[i], a) then WakeFrom(s, i + 1, a, memory)
            else var r := Enqueue(s.(asleep := RemoveAt(s.asleep, i)), s.asleep[i], memory);
                 if r.Panic? then Panic else WakeFrom(r.s, i, a, memory)
  {
  }

  lemma WakeOneFromStep<A(!new)>(s: Sys<A>, i: nat, a: A, memory: bool)
    requires i <= |s.asleep|
    ensures WakeOneFrom(s, i, a, memory)
         == if i == |s.asleep| then Next(s)
            else if !SleepsOn(s, s.asleep[i], a) then WakeOneFrom(s, i + 1, a, memory)
            else Enqueue(s.(asleep := RemoveAt(s.asleep, i)), s.asleep[i], memory)
  {
  }
}
