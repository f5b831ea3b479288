/** The thread system between its atomic steps: the thread that runs, the run queue, the sleepers and the zombies. */
module Threads {
  import Q = Queue
  import P = PtrArray

  /** No current thread: the scheduler is looking for one. */
  const NONE: int := -1
  const FIRST_QUEUE_SIZE: int := 32

  /**
   * `qsize`, `smax` and `zmax` are the sizes of the run queue's ring and of the two arrays; `addr` is t_sleepaddr;
   * `unborn` are the threads that have never run, which begin in mi_threadstart.
   */
  datatype Sys<A> = Sys(cur: int, ready: seq<nat>, qsize: int, asleep: seq<nat>, smax: nat, dead: seq<nat>, zmax: nat,
                        count: nat, addr: map<nat, A>, unborn: set<nat>)

  datatype Outcome<A> = Next(s: Sys<A>) | Panic

  function Boot<A>(): Sys<A> {
    Sys(0, [], FIRST_QUEUE_SIZE, [], 0, [], 0, 1, map[], {})
  }

  // ----- the steps

  /** make_runnable, with its result asserted to be 0. */
  function Enqueue<A>(s: Sys<A>, t: nat, memory: bool): Outcome<A> {
    if |s.ready| != s.qsize - 1 then Next(s.(ready := s.ready + [t]))
    else if memory && 2 * s.qsize < Q.INT_LIMIT then Next(s.(ready := s.ready + [t], qsize := 2 * s.qsize))
    else Panic
  }

  /** The capacity an array has once there is room for one element more. */
  function Room(max: nat, num: nat): nat {
    if num == max then P.NewMax(max, num + 1) else max
  }

  function Yield<A>(s: Sys<A>, memory: bool): Outcome<A>
    requires s.cur >= 0
  {
    Enqueue(s.(cur := NONE), s.cur, memory)
  }

  function Sleep<A>(s: Sys<A>, a: A, memory: bool): Outcome<A>
    requires s.cur >= 0
  {
    if |s.asleep| == s.smax && !memory then Panic
    else Next(s.(cur := NONE, asleep := s.asleep + [s.cur], smax := Room(s.smax, |s.asleep|),
        addr := s.addr[s.cur := a]))
  }

  function Exit<A>(s: Sys<A>, memory: bool): Outcome<A>
    requires s.cur >= 0
  {
    if s.count == 0 || (|s.dead| == s.zmax && !memory) then Panic
    else Next(s.(cur := NONE, dead := s.dead + [s.cur], zmax := Room(s.zmax, |s.dead|), count := s.count - 1))
  }

  function Exorcised<A>(s: Sys<A>): Sys<A> {
    s.(dead := [], zmax := if s.zmax > 16 then 0 else s.zmax)
  }

  /** The thread at the head of the run queue goes on; unless it has never run it buries the zombies. */
  function Dispatch<A>(s: Sys<A>): Outcome<A>
    requires s.ready != []
  {
    var t := s.ready[0];
    var g := s.(cur := t, ready := s.ready[1..], addr := s.addr - {t}, unborn := s.unborn - {t});
    if t in s.unborn then Next(g) else if t in s.dead then Panic else Next(Exorcised(g))
  }

  /** The successes and failures of the allocations of one fork. */
  datatype ForkMemory = ForkMemory(thread: bool, sleepers: bool, zombies: bool, queue: bool)

  /** thread_fork; a fork that fails leaves behind the arrays it has enlarged. */
  function Fork<A>(s: Sys<A>, t: nat, m: ForkMemory): (r: (Outcome<A>, bool))
    requires 0 < s.qsize < Q.INT_LIMIT - 1 && s.count + 1 < Q.INT_LIMIT
  {
    var n := s.count + 1;
    if !m.thread || !m.sleepers then (Next(s), false)
    else
      var s1 := s.(smax := P.NewMax(s.smax, n));
      if !m.zombies then (Next(s1), false)
      else
        var s2 := s1.(zmax := P.NewMax(s.zmax, n));
        if n > s.qsize && Q.Doubled(s.qsize, n) < n then (Panic, false)
        else if n > s.qsize && !m.queue then (Next(s2), false)
        else
          var s3 := s2.(qsize := if n > s.qsize then Q.Doubled(s.qsize, n) else s.qsize);
          if |s3.ready| != s3.qsize - 1 then
            (Next(s3.(ready := s.ready + [t], count := n, unborn := s.unborn + {t})), true)
          else if 2 * s3.qsize >= Q.INT_LIMIT then (Panic, false)
          else if !m.queue then (Next(s3), false)
          else (Next(s3.(ready := s.ready + [t], qsize := 2 * s3.qsize, count := n, unborn := s.unborn + {t})), true)
  }

  function RemoveAt(l: seq<nat>, i: nat): (m: seq<nat>)
    requires i < |l|
    ensures |m| == |l| - 1
  {
    l[..i] + l[i + 1..]
  }

  predicate SleepsOn<A(==)>(s: Sys<A>, t: nat, a: A) {
    t in s.addr && s.addr[t] == a
  }

  /** The loop of thread_wakeup from place `i` on: it removes while it scans. */
  function WakeFrom<A(==)>(s: Sys<A>, i: nat, a: A, memory: bool): Outcome<A>
    requires i <= |s.asleep|
    decreases |s.asleep| - i
  {
    if i == |s.asleep| then Next(s)
    else if !SleepsOn(s, s.asleep[i], a) then WakeFrom(s, i + 1, a, memory)
    else
      var r := Enqueue(s.(asleep := RemoveAt(s.asleep, i)), s.asleep[i], memory);
      if r.Panic? then Panic else WakeFrom(r.s, i, a, memory)
  }

  function Wakeup<A(==)>(s: Sys<A>, a: A, memory: bool): Outcome<A> {
    WakeFrom(s, 0, a, memory)
  }

  /** The loop of thread_wakeone. */
  function WakeOneFrom<A(==)>(s: Sys<A>, i: nat, a: A, memory: bool): Outcome<A>
    requires i <= |s.asleep|
    decreases |s.asleep| - i
  {
    if i == |s.asleep| then Next(s)
    else if !SleepsOn(s, s.asleep[i], a) then WakeOneFrom(s, i + 1, a, memory)
    else Enqueue(s.(asleep := RemoveAt(s.asleep, i)), s.asleep[i], memory)
  }

  function WakeOne<A(==)>(s: Sys<A>, a: A, memory: bool): Outcome<A> {
    WakeOneFrom(s, 0, a, memory)
  }

  // ----- the invariant

  function Running(cur: int): multiset<nat> {
    if cur >= 0 then multiset{cur} else multiset{}
  }

  /** Every thread, as often as it is in some place. */
  function Places(cur: int, ready: seq<nat>, asleep: seq<nat>, dead: seq<nat>): multiset<nat> {
    Running(cur) + multiset(ready) + multiset(asleep) + multiset(dead)
  }

  function Census<A>(s: Sys<A>): multiset<nat> {
    Places(s.cur, s.ready, s.asleep, s.dead)
  }

  ghost predicate Once(m: multiset<nat>) {
    forall t: nat :: m[t] <= 1
  }

  ghost predicate Inv<A(!new)>(s: Sys<A>) {
    && s.cur >= NONE && Once(Census(s))
    && s.count == (if s.cur >= 0 then 1 else 0) + |s.ready| + |s.asleep|
    && 0 < s.qsize < Q.INT_LIMIT - 1 && |s.ready| < s.qsize && s.count <= s.qsize
    && |s.asleep| <= s.smax && (s.count <= s.smax || (s.smax == 0 && s.count <= 1))
    && |s.dead| <= s.zmax
    && (forall t: nat | t in s.asleep :: t in s.addr)
    && (forall t: nat | t in s.unborn :: t in s.ready)
  }

  lemma InvBounds<A(!new)>(s: Sys<A>)
    requires Inv(s)
    ensures 0 < s.qsize < Q.INT_LIMIT - 1 && s.count + 1 < Q.INT_LIMIT && |s.ready| < s.qsize
  {
  }

  lemma BootInv<A(!new)>()
    ensures Inv(Boot<A>())
  {
  }

  // ----- what each step keeps

  lemma ToReady(t: nat, ready: seq<nat>, asleep: seq<nat>, dead: seq<nat>)
    ensures Places(NONE, ready + [t], asleep, dead) == Places(t, ready, asleep, dead)
  {
  }

  lemma ToSleep(t: nat, ready: seq<nat>, asleep: seq<nat>, dead: seq<nat>)
    ensures Places(NONE, ready, asleep + [t], dead) == Places(t, ready, asleep, dead)
  {
  }

  lemma ToDead(t: nat, ready: seq<nat>, asleep: seq<nat>, dead: seq<nat>)
    ensures Places(NONE, ready, asleep, dead + [t]) == Places(t, ready, asleep, dead)
  {
  }

  lemma FromReady(ready: seq<nat>, asleep: seq<nat>, dead: seq<nat>)
    requires ready != []
    ensures Places(ready[0], ready[1..], asleep, dead) == Places(NONE, ready, asleep, dead)
  {
    assert ready == [ready[0]] + ready[1..];
  }

  lemma NewThread(t: nat, cur: int, ready: seq<nat>, asleep: seq<nat>, dead: seq<nat>)
    requires Once(Places(cur, ready, asleep, dead)) && Places(cur, ready, asleep, dead)[t] == 0
    ensures Once(Places(cur, ready + [t], asleep, dead))
  {
    assert Places(cur, ready + [t], asleep, dead) == Places(cur, ready, asleep, dead) + multiset{t};
  }

  lemma Buried(cur: int, ready: seq<nat>, asleep: seq<nat>, dead: seq<nat>)
    requires Once(Places(cur, ready, asleep, dead))
    ensures Once(Places(cur, ready, asleep, []))
  {
    forall t: nat
      ensures Places(cur, ready, asleep, [])[t] <= 1
    {
      assert Places(cur, ready, asleep, dead)[t] <= 1;
    }
  }

  lemma RemoveAtHas(l: seq<nat>, i: nat)
    requires i < |l|
    ensures multiset(RemoveAt(l, i)) + multiset{l[i]} == multiset(l)
    ensures forall t: nat | t in RemoveAt(l, i) :: t in l
  {
    assert l == l[..i] + [l[i]] + l[i + 1..];
  }

  lemma RemoveAtIs(l: seq<nat>, i: nat)
    requires i < |l|
    ensures RemoveAt(l, i) == l[..i] + l[i + 1..]
  {
  }

  lemma Awake(i: nat, cur: int, ready: seq<nat>, asleep: seq<nat>, dead: seq<nat>)
    requires i < |asleep|
    ensures Places(cur, ready + [asleep[i]], RemoveAt(asleep, i), dead) == Places(cur, ready, asleep, dead)
  {
    hide RemoveAt;
    RemoveAtHas(asleep, i);
    assert multiset(ready + [asleep[i]]) == multiset(ready) + multiset{asleep[i]};
  }

  lemma OnePlace(cur: int, ready: seq<nat>, asleep: seq<nat>, dead: seq<nat>)
    requires Once(Places(cur, ready, asleep, dead)) && ready != []
    ensures ready[0] !in dead && ready[0] !in asleep
  {
    var t := ready[0];
    assert Places(cur, ready, asleep, dead)[t] <= 1 && multiset(ready)[t] >= 1;
  }

  lemma YieldKeeps<A(!new)>(s: Sys<A>, memory: bool)
    requires Inv(s) && s.cur >= 0 && Yield(s, memory).Next?
    ensures Inv(Yield(s, memory).s)
  {
    hide Once, Places;
    ToReady(s.cur, s.ready, s.asleep, s.dead);
  }

  lemma SleepKeeps<A(!new)>(s: Sys<A>, a: A, memory: bool)
    requires Inv(s) && s.cur >= 0 && Sleep(s, a, memory).Next?
    ensures Inv(Sleep(s, a, memory).s)
  {
    hide Once, Places, Room;
    ToSleep(s.cur, s.ready, s.asleep, s.dead);
    RoomEnough(s.smax, |s.asleep|);
  }

  lemma RoomEnough(max: nat, num: nat)
    requires num <= max
    ensures num < Room(max, num) && max <= Room(max, num) && (max == 0 ==> Room(max, num) >= 2)
  {
  }

  lemma ExitKeeps<A(!new)>(s: Sys<A>, memory: bool)
    requires Inv(s) && s.cur >= 0 && Exit(s, memory).Next?
    ensures Inv(Exit(s, memory).s)
  {
    hide Once, Places, Room;
    ToDead(s.cur, s.ready, s.asleep, s.dead);
    RoomEnough(s.zmax, |s.dead|);
  }

  lemma DispatchKeeps<A(!new)>(s: Sys<A>)
    requires Inv(s) && s.cur == NONE && s.ready != []
    ensures Dispatch(s).Next? && Inv(Dispatch(s).s)
  {
    hide Once, Places;
    FromReady(s.ready, s.asleep, s.dead);
    OnePlace(NONE, s.ready, s.asleep, s.dead);
    Buried(s.ready[0], s.ready[1..], s.asleep, s.dead);
  }

  lemma ForkKeeps<A(!new)>(s: Sys<A>, t: nat, m: ForkMemory)
    requires Inv(s) && s.cur >= 0 && Census(s)[t] == 0 && Fork(s, t, m).0.Next?
    ensures Inv(Fork(s, t, m).0.s)
    ensures Fork(s, t, m).1 ==> Fork(s, t, m).0.s.smax > 0
  {
    hide Once, Places, Q.Doubled, P.NewMax;
    NewThread(t, s.cur, s.ready, s.asleep, s.dead);
  }

  /** One sleeper moves to the run queue. */
  lemma MoveKeeps<A(!new)>(s: Sys<A>, i: nat, memory: bool)
    requires Inv(s) && i < |s.asleep|
    ensures var r := Enqueue(s.(asleep := RemoveAt(s.asleep, i)), s.asleep[i], memory);
            (r.Next? ==> Inv(r.s)) && (s.cur >= 0 ==> r.Next? && r.s.qsize == s.qsize)
  {
    hide Once, Places, RemoveAt;
    RemoveAtHas(s.asleep, i);
    Awake(i, s.cur, s.ready, s.asleep, s.dead);
  }

  /** What becomes of a sleeper that is moved to the run queue. */
  lemma MoveEffect<A(!new)>(s: Sys<A>, i: nat, memory: bool)
    requires i < |s.asleep|
    ensures var r := Enqueue(s.(asleep := RemoveAt(s.asleep, i)), s.asleep[i], memory);
            r.Next? ==> r.s == s.(asleep := RemoveAt(s.asleep, i), ready := s.ready + [s.asleep[i]], qsize := r.s.qsize)
  {
  }

  /** While a thread runs, waking sleepers needs no memory. */
  lemma {:induction false} WakeFromKeeps<A(!new)>(s: Sys<A>, i: nat, a: A, memory: bool)
    requires Inv(s) && i <= |s.asleep|
    ensures WakeFrom(s, i, a, memory).Next? ==> Inv(WakeFrom(s, i, a, memory).s)
    ensures s.cur >= 0 ==> WakeFrom(s, i, a, memory).Next? && WakeFrom(s, i, a, memory).s.qsize == s.qsize
    decreases |s.asleep| - i
  {
    if i < |s.asleep| {
      if !SleepsOn(s, s.asleep[i], a) {
        WakeFromKeeps(s, i + 1, a, memory);
      } else {
        MoveKeeps(s, i, memory);
        MoveEffect(s, i, memory);
        var r := Enqueue(s.(asleep := RemoveAt(s.asleep, i)), s.asleep[i], memory);
        if r.Next? {
          WakeFromKeeps(r.s, i, a, memory);
        }
      }
    }
  }

  lemma {:induction false} WakeOneFromKeeps<A(!new)>(s: Sys<A>, i: nat, a: A, memory: bool)
    requires Inv(s) && i <= |s.asleep|
    ensures WakeOneFrom(s, i, a, memory).Next? ==> Inv(WakeOneFrom(s, i, a, memory).s)
    ensures s.cur >= 0 ==> WakeOneFrom(s, i, a, memory).Next? && WakeOneFrom(s, i, a, memory).s.qsize == s.qsize
    decreases |s.asleep| - i
  {
    if i < |s.asleep| {
      if !SleepsOn(s, s.asleep[i], a) {
        WakeOneFromKeeps(s, i + 1, a, memory);
      } else {
        MoveKeeps(s, i, memory);
      }
    }
  }

  // ----- what waking does

  /** The threads of a list that sleep on `a`, in order, and the others. */
  function Woken<A(==)>(l: seq<nat>, addr: map<nat, A>, a: A): (m: seq<nat>)
    ensures forall t: nat :: t in m <==> t in l && t in addr && addr[t] == a
  {
    if l == [] then [] else (if l[0] in addr && addr[l[0]] == a then [l[0]] else []) + Woken(l[1..], addr, a)
  }

  function Kept<A(==)>(l: seq<nat>, addr: map<nat, A>, a: A): (m: seq<nat>)
    ensures forall t: nat :: t in m <==> t in l && !(t in addr && addr[t] == a)
  {
    if l == [] then [] else (if l[0] in addr && addr[l[0]] == a then [] else [l[0]]) + Kept(l[1..], addr, a)
  }

  lemma WokenFirst<A(!new)>(x: nat, l: seq<nat>, addr: map<nat, A>, a: A)
    ensures Woken([x] + l, addr, a) == (if x in addr && addr[x] == a then [x] else []) + Woken(l, addr, a)
    ensures Kept([x] + l, addr, a) == (if x in addr && addr[x] == a then [] else [x]) + Kept(l, addr, a)
  {
    assert ([x] + l)[1..] == l;
  }

  lemma NoneWoken<A(!new)>(addr: map<nat, A>, a: A)
    ensures Woken([], addr, a) == [] && Kept([], addr, a) == []
  {
  }

  lemma RemoveInside(l: seq<nat>, i: nat)
    requires i < |l|
    ensures RemoveAt(l, i)[..i] == l[..i] && RemoveAt(l, i)[i..] == l[i + 1..]
    ensures l[i..] == [l[i]] + l[i + 1..]
  {
  }

  /** What a scan from place `i` on will leave asleep, and what it will wake. */
  function Left<A(==)>(l: seq<nat>, i: nat, addr: map<nat, A>, a: A): seq<nat>
    requires i <= |l|
  {
    l[..i] + Kept(l[i..], addr, a)
  }

  /** One round of the scan changes neither the final sleepers nor the final order of the woken. */
  lemma ScanStep<A(!new)>(l: seq<nat>, i: nat, ready: seq<nat>, addr: map<nat, A>, a: A)
    requires i < |l|
    ensures l[i] in addr && addr[l[i]] == a ==>
              Left(RemoveAt(l, i), i, addr, a) == Left(l, i, addr, a)
              && ready + [l[i]] + Woken(RemoveAt(l, i)[i..], addr, a) == ready + Woken(l[i..], addr, a)
    ensures !(l[i] in addr && addr[l[i]] == a) ==> Left(l, i + 1, addr, a) == Left(l, i, addr, a)
                                                   && Woken(l[i + 1..], addr, a) == Woken(l[i..], addr, a)
  {
    hide Woken, Kept, RemoveAt;
    var x, tail := l[i], l[i + 1..];
    var k, w := Kept(tail, addr, a), Woken(tail, addr, a);
    RemoveInside(l, i);
    WokenFirst(x, tail, addr, a);
    assert [] + k == k && [] + w == w;
    assert l[..i + 1] == l[..i] + [x];
    assert l[..i] + [x] + k == l[..i] + ([x] + k);
    assert ready + [x] + w == ready + ([x] + w);
  }

  /** The scan that removes as it goes moves exactly the sleepers on `a`, in their order. */
  lemma {:induction false} WakeFromMoves<A(!new)>(s: Sys<A>, i: nat, a: A, memory: bool)
    requires i <= |s.asleep| && WakeFrom(s, i, a, memory).Next?
    ensures var g := WakeFrom(s, i, a, memory).s;
            && g.asleep == Left(s.asleep, i, s.addr, a)
            && g.ready == s.ready + Woken(s.asleep[i..], s.addr, a)
            && g == s.(asleep := g.asleep, ready := g.ready, qsize := g.qsize)
    decreases |s.asleep| - i
  {
    hide Woken, Left, Enqueue, RemoveAt;
    if i == |s.asleep| {
      AllLeft(s.asleep, s.addr, a);
    } else {
      ScanStep(s.asleep, i, s.ready, s.addr, a);
      if !SleepsOn(s, s.asleep[i], a) {
        WakeFromMoves(s, i + 1, a, memory);
      } else {
        var r := Enqueue(s.(asleep := RemoveAt(s.asleep, i)), s.asleep[i], memory);
        MoveEffect(s, i, memory);
        WakeFromMoves(r.s, i, a, memory);
      }
    }
  }

  lemma AllLeft<A(!new)>(l: seq<nat>, addr: map<nat, A>, a: A)
    ensures Left(l, |l|, addr, a) == l && Woken(l[|l|..], addr, a) == []
  {
  }

  lemma WakeupMoves<A(!new)>(s: Sys<A>, a: A, memory: bool)
    requires Wakeup(s, a, memory).Next?
    ensures var g := Wakeup(s, a, memory).s;
            && g.asleep == Kept(s.asleep, s.addr, a) && g.ready == s.ready + Woken(s.asleep, s.addr, a)
            && g == s.(asleep := g.asleep, ready := g.ready, qsize := g.qsize)
  {
    WakeFromMoves(s, 0, a, memory);
    assert s.asleep[0..] == s.asleep && s.asleep[..0] == [];
  }

  /** Place `k` holds the first thread of the list that sleeps on `a`. */
  ghost predicate FirstOn<A(!new)>(l: seq<nat>, k: nat, addr: map<nat, A>, a: A) {
    k < |l| && l[k] in addr && addr[l[k]] == a && forall j: nat | j < k :: !(l[j] in addr && addr[l[j]] == a)
  }

  /** The scan of thread_wakeone stops at the first sleeper on `a`. */
  lemma {:induction false} WakeOneFromMoves<A(!new)>(s: Sys<A>, i: nat, a: A, memory: bool) returns (k: nat)
    requires i <= |s.asleep| && WakeOneFrom(s, i, a, memory).Next?
    requires forall j: nat | j < i :: !SleepsOn(s, s.asleep[j], a)
    ensures var g := WakeOneFrom(s, i, a, memory).s;
            if k < |s.asleep| then FirstOn(s.asleep, k, s.addr, a)
              && g == s.(asleep := RemoveAt(s.asleep, k), ready := s.ready + [s.asleep[k]], qsize := g.qsize)
            else g == s && forall t: nat | t in s.asleep :: !SleepsOn(s, t, a)
    decreases |s.asleep| - i
  {
    hide Enqueue, RemoveAt;
    k := i;
    if i < |s.asleep| {
      if !SleepsOn(s, s.asleep[i], a) {
        k := WakeOneFromMoves(s, i + 1, a, memory);
      } else {
        MoveEffect(s, i, memory);
      }
    }
  }

  lemma {:induction false} RemoveFirst<A(!new)>(l: seq<nat>, k: nat, addr: map<nat, A>, a: A)
    requires FirstOn(l, k, addr, a)
    ensures Woken(l, addr, a) == [l[k]] + Woken(RemoveAt(l, k), addr, a)
  {
    hide Woken, RemoveAt;
    RemoveAtTail(l, k);
    WokenFirst(l[0], l[1..], addr, a);
    if k > 0 {
      RemoveFirst(l[1..], k - 1, addr, a);
      WokenFirst(l[0], RemoveAt(l[1..], k - 1), addr, a);
    }
  }

  lemma RemoveAtTail(l: seq<nat>, k: nat)
    requires k < |l|
    ensures l == [l[0]] + l[1..]
    ensures RemoveAt(l, k) == if k == 0 then l[1..] else [l[0]] + RemoveAt(l[1..], k - 1)
  {
  }

  /** thread_wakeone moves the sleeper on `a` that has slept longest, if there is one. */
  lemma WakeOneMoves<A(!new)>(s: Sys<A>, a: A, memory: bool)
    requires WakeOne(s, a, memory).Next?
    ensures var g := WakeOne(s, a, memory).s; var w := Woken(s.asleep, s.addr, a);
            && g == s.(asleep := g.asleep, ready := g.ready, qsize := g.qsize)
            && (w == [] ==> g == s)
            && (w != [] ==> g.ready == s.ready + [w[0]] && Woken(g.asleep, s.addr, a) == w[1..]
                            && multiset(g.asleep) == multiset(s.asleep) - multiset{w[0]})
  {
    hide Woken, RemoveAt;
    var k := WakeOneFromMoves(s, 0, a, memory);
    if k < |s.asleep| {
      RemoveFirst(s.asleep, k, s.addr, a);
      RemoveAtHas(s.asleep, k);
    } else {
      NoneFound(Woken(s.asleep, s.addr, a));
    }
  }

  lemma NoneFound(l: seq<nat>)
    ensures l == [] || l[0] in l
  {
  }
}
