/** Several state tables: random, srandom, initstate and setstate, over any run. */
module RandomTables {
  import opened Arithmetic
  import opened Random

  const BREAK_0: nat := 8

  /** The type that `n` bytes of state allow; initstate refuses fewer than BREAK_0. */
  function KindFor(n: nat): (kind: nat)
    ensures kind < MAX_TYPES && (n >= BREAK_0 ==> 4 * (Degree(kind) + 1) <= n)
  {
    if n < 32 then 0 else if n < 64 then 1 else if n < 128 then 2 else if n < 256 then 3 else 4
  }

  /** The tables by name, the one in use, and the variables that belong to it; `known` are those initstate has made. */
  datatype World = World(mem: map<nat, seq<nat>>, cur: nat, kind: nat, front: nat, rear: nat, known: set<nat>)

  function Active(w: World): Gen
    requires w.cur in w.mem && |w.mem[w.cur]| > 0
  {
    Gen(w.kind, w.mem[w.cur][1..], w.front, w.rear)
  }

  ghost predicate Ok(w: World) {
    && w.cur in w.known && (forall id | id in w.known :: id in w.mem && Stored(w.mem[id]))
    && GenOk(Active(w)) && w.mem[w.cur][0] % MAX_TYPES == w.kind
  }

  /** The generator works on the words of its table in place; the header stays. */
  function Put(w: World, g: Gen): World
    requires w.cur in w.mem && |w.mem[w.cur]| > 0
  {
    w.(mem := w.mem[w.cur := [w.mem[w.cur][0]] + g.words], kind := g.kind, front := g.front, rear := g.rear)
  }

  /** The table in use with its header brought up to date. */
  function Saved(w: World): World
    requires w.cur in w.mem && |w.mem[w.cur]| > 0
  {
    w.(mem := w.mem[w.cur := [Header(Active(w))] + w.mem[w.cur][1..]])
  }

  datatype Event = ERandom | ESrandom(x: nat) | ESetState(id: nat) | EInitState(x: nat, id: nat, n: nat)

  ghost predicate Enabled(w: World, e: Event) {
    match e
    case ERandom => true
    case ESrandom(x) => x < WORD
    case ESetState(id) => id in w.known
    case EInitState(x, id, n) => x < WORD && id in w.mem && n <= 4 * |w.mem[id]| && Words(w.mem[id])
  }

  /** setstate reads the header of the new table before it saves the old one. */
  function SetState(w: World, id: nat): World
    requires w.cur in w.mem && |w.mem[w.cur]| > 0 && id in w.mem && Stored(w.mem[id])
  {
    var g := Loaded(w.mem[id], w.front, w.rear);
    Saved(w).(cur := id, kind := g.kind, front := g.front, rear := g.rear)
  }

  lemma SavedOk(w: World)
    requires Ok(w)
    ensures Ok(Saved(w)) && Active(Saved(w)) == Active(w) && Saved(w).mem.Keys == w.mem.Keys
    ensures Saved(w).mem[w.cur] == [Header(Active(w))] + Active(w).words
    ensures forall id | id in w.mem ::
              |Saved(w).mem[id]| == |w.mem[id]|
              && (id != w.cur ==> Saved(w).mem[id] == w.mem[id])
    ensures forall id | id in w.mem && Words(w.mem[id]) :: Words(Saved(w).mem[id])
  {
    SaveLoad(Active(w), 0, 0);
    var t := Saved(w).mem[w.cur];
    assert t[1..] == w.mem[w.cur][1..];
    HeaderKind(Active(w));
  }

  lemma HeaderKind(g: Gen)
    requires GenOk(g)
    ensures Header(g) % MAX_TYPES == g.kind && (g.kind > 0 ==> Header(g) / MAX_TYPES == g.rear)
  {
    if g.kind > 0 {
      assert (MAX_TYPES * g.rear + g.kind) % MAX_TYPES == g.kind && (MAX_TYPES * g.rear + g.kind) / MAX_TYPES == g.rear;
    }
  }

  /** The generator that initstate seeds in a table of type `kind`. */
  function Fresh(w: World, table: seq<nat>, kind: nat): Gen
    requires |table| > 0 && kind < MAX_TYPES
  {
    if kind == 0 then Gen(0, table[1..], w.front, w.rear) else Gen(kind, table[1..], Sep(kind) % Degree(kind), 0)
  }

  function InitState(w: World, x: nat, id: nat, n: nat): World
    requires Ok(w) && x < WORD && id in w.mem && n <= 4 * |w.mem[id]| && Words(w.mem[id])
  {
    SavedOk(w);
    var s := Saved(w);
    if n < BREAK_0 then s
    else
      var kind := KindFor(n);
      FreshOk(w, s.mem[id], kind);
      var g := Seeded(Fresh(w, s.mem[id], kind), x);
      s.(mem := s.mem[id := [Header(g)] + g.words], cur := id, kind := g.kind, front := g.front, rear := g.rear,
         known := s.known + {id})
  }

  lemma FreshOk(w: World, table: seq<nat>, kind: nat)
    requires kind < MAX_TYPES && |table| > Degree(kind) && |table| >= 2 && Words(table)
    ensures GenOk(Fresh(w, table, kind))
  {
  }

  function Step(w: World, e: Event): World
    requires Ok(w) && Enabled(w, e)
  {
    match e
    case ERandom => Put(w, Next(Active(w)))
    case ESrandom(x) => Put(w, Seeded(Active(w), x))
    case ESetState(id) => SetState(w, id)
    case EInitState(x, id, n) => InitState(w, x, id, n)
  }

  // ----- every run keeps the tables in order

  lemma PutOk(w: World, g: Gen)
    requires Ok(w) && GenOk(g) && g.kind == w.kind && |g.words| == |Active(w).words|
    ensures Ok(Put(w, g)) && Active(Put(w, g)) == g
  {
    assert ([w.mem[w.cur][0]] + g.words)[1..] == g.words;
  }

  lemma SetStateOk(w: World, id: nat)
    requires Ok(w) && id in w.known
    ensures Ok(SetState(w, id))
  {
    SavedOk(w);
    var g, t := Loaded(w.mem[id], w.front, w.rear), Saved(w).mem[id];
    assert t[1..] == w.mem[id][1..];
    assert t[0] % MAX_TYPES == g.kind;
    assert Active(SetState(w, id)).words == g.words;
  }

  lemma InitStateOk(w: World, x: nat, id: nat, n: nat)
    requires Ok(w) && Enabled(w, EInitState(x, id, n))
    ensures Ok(InitState(w, x, id, n))
  {
    hide Seeded, Fresh;
    SavedOk(w);
    if n >= BREAK_0 {
      var t, kind := Saved(w).mem[id], KindFor(n);
      FreshOk(w, t, kind);
      var g := Seeded(Fresh(w, t, kind), x);
      SaveLoad(g, 0, 0);
      HeaderKind(g);
      assert ([Header(g)] + g.words)[1..] == g.words;
    }
  }

  lemma StepOk(w: World, e: Event)
    requires Ok(w) && Enabled(w, e)
    ensures Ok(Step(w, e))
  {
    hide Ok, Next, Seeded, GenOk;
    match e
    case ERandom => ActiveOk(w); NextPointers(Active(w)); PutOk(w, Next(Active(w)));
    case ESrandom(x) => ActiveOk(w); PutOk(w, Seeded(Active(w), x));
    case ESetState(id) => SetStateOk(w, id);
    case EInitState(x, id, n) => InitStateOk(w, x, id, n);
  }

  lemma ActiveOk(w: World)
    requires Ok(w)
    ensures w.cur in w.mem && |w.mem[w.cur]| > 0 && GenOk(Active(w)) && Active(w).kind == w.kind < MAX_TYPES
  {
  }

  /** Each call meets what its function asks of the caller. */
  ghost predicate Feasible(w: World, es: seq<Event>)
    requires Ok(w)
    decreases |es|
  {
    es != [] ==> Enabled(w, es[0]) && (StepOk(w, es[0]); Feasible(Step(w, es[0]), es[1..]))
  }

  /** The tables stay in order over any run. */
  ghost function Run(w: World, es: seq<Event>): (g: World)
    requires Ok(w) && Feasible(w, es)
    ensures Ok(g)
    decreases |es|
  {
    if es == [] then w
    else
      StepOk(w, es[0]);
      Run(Step(w, es[0]), es[1..])
  }

  // ----- leaving a table and coming back

  predicate Touches(e: Event, a: nat) {
    match e
    case ESetState(id) => id == a
    case EInitState(_, id, _) => id == a
    case _ => false
  }

  /** While another table is in use nothing changes this one. */
  lemma StepSpares(w: World, e: Event, a: nat)
    requires Ok(w) && Enabled(w, e) && w.cur != a && a in w.mem && !Touches(e, a)
    ensures var g := Step(w, e); g.cur != a && a in g.mem && g.mem[a] == w.mem[a] && (a in w.known ==> a in g.known)
  {
    hide Next, Seeded;
    SavedOk(w);
  }

  lemma {:induction false} RunSpares(w: World, es: seq<Event>, a: nat)
    requires Ok(w) && Feasible(w, es) && w.cur != a && a in w.mem && forall e | e in es :: !Touches(e, a)
    ensures var g := Run(w, es); g.cur != a && a in g.mem && g.mem[a] == w.mem[a] && (a in w.known ==> a in g.known)
    decreases |es|
  {
    hide Ok, Step, Enabled;
    if es != [] {
      StepOk(w, es[0]);
      StepSpares(w, es[0], a);
      RunSpares(Step(w, es[0]), es[1..], a);
    }
  }

  /** The same generator, except that one of type 0 has no use for the pointers. */
  predicate SameGen(g: Gen, h: Gen) {
    g.kind == h.kind && g.words == h.words && (g.kind > 0 ==> g == h)
  }

  /** Switching to another table and back, with any calls in between, gives back the generator as it was left. */
  lemma SwitchBack(w: World, b: nat, es: seq<Event>)
    requires Ok(w) && b != w.cur && Feasible(w, [ESetState(b)] + es) && forall e | e in es :: !Touches(e, w.cur)
    ensures var g := Run(w, [ESetState(b)] + es); w.cur in g.known && SameGen(Active(SetState(g, w.cur)), Active(w))
  {
    var a := w.cur;
    assert ([ESetState(b)] + es)[1..] == es;
    SavedOk(w);
    SetStateOk(w, b);
    RunSpares(SetState(w, b), es, a);
    var g := Run(SetState(w, b), es);
    SavedOk(g);
    SaveLoad(Active(w), g.front, g.rear);
    assert ([Header(Active(w))] + Active(w).words)[1..] == Active(w).words;
  }

  /** Generators that are the same go on in the same way. */
  lemma {:induction false} SameSums(g: Gen, h: Gen, n: nat)
    requires GenOk(g) && GenOk(h) && SameGen(g, h)
    ensures Sums(g, n) == Sums(h, n)
    decreases n
  {
    if n > 0 {
      NextPointers(g);
      NextPointers(h);
      SameSums(Next(g), Next(h), n - 1);
    }
  }

  // ----- setstate with the table already in use

  /** It keeps the generator exactly when the header happens to be up to date, because it reads the header too early. */
  lemma SameTable(w: World)
    requires Ok(w)
    ensures SameGen(Active(SetState(w, w.cur)), Active(w)) <==> w.kind == 0 || w.mem[w.cur][0] == Header(Active(w))
  {
    SavedOk(w);
    HeaderKind(Active(w));
    var hd := w.mem[w.cur][0];
    assert hd == MAX_TYPES * (hd / MAX_TYPES) + hd % MAX_TYPES;
    assert Saved(w).mem[w.cur][1..] == w.mem[w.cur][1..];
  }

  /** `n` calls of random(). */
  function Calls(w: World, n: nat): (g: World)
    requires Ok(w)
    ensures Ok(g) && g.cur == w.cur && g.kind == w.kind && g.mem[g.cur][0] == w.mem[w.cur][0]
    ensures Active(g) == After(Active(w), n)
    decreases n
  {
    if n == 0 then w
    else
      NextPointers(Active(w));
      PutOk(w, Next(Active(w)));
      Calls(Put(w, Next(Active(w))), n - 1)
  }

  /** With a header that was up to date `n` calls ago, that is so only after whole rounds. */
  lemma SameTableAfter(w: World, n: nat)
    requires Ok(w) && w.kind > 0 && w.mem[w.cur][0] == Header(Active(w))
    ensures SameGen(Active(SetState(Calls(w, n), w.cur)), Active(Calls(w, n))) <==> n % Degree(w.kind) == 0
  {
    hide Degree, Header, Mod, GenOk, Ok, SetState, SameGen;
    ActiveOk(w);
    var g, deg := Calls(w, n), Degree(w.kind);
    ActiveOk(g);
    SameTable(g);
    RearMoves(Active(w), n);
    RoundOnly(w.rear, n, deg);
    HeadersDiffer(Active(w), Active(g));
  }

  lemma HeadersDiffer(g: Gen, h: Gen)
    requires g.kind == h.kind > 0
    ensures Header(g) == Header(h) <==> g.rear == h.rear
  {
  }

  lemma RoundOnly(r: nat, n: nat, deg: nat)
    requires r < deg
    ensures Mod(r + n, deg) == r <==> n % deg == 0
  {
    var q, m := n / deg, n % deg;
    assert n == q * deg + m;
    if r + m < deg {
      Remainder(r + n, q, r + m, deg);
    } else {
      assert (q + 1) * deg == q * deg + deg;
      Remainder(r + n, q + 1, r + m - deg, deg);
    }
  }

  // ----- the code

  class RandomState {
    var table: array<nat>
    var kind: nat
    var deg: nat
    var sep: nat
    var fptr: nat
    var rptr: nat
    var endptr: nat

    ghost function View(): Gen
      requires table.Length > 0
      reads this, table
    {
      Gen(kind, table[1..], fptr, rptr)
    }

    ghost predicate Valid()
      reads this, table
    {
      && table.Length > 0 && GenOk(View()) && Stored(table[..]) && table[0] % MAX_TYPES == kind
      && deg == Degree(kind) && sep == Sep(kind) && endptr == deg
    }

    /** All of Valid that srandom_unlocked finds when initstate calls it: the header is not yet written. */
    ghost predicate Set()
      reads this, table
    {
      table.Length > 0 && GenOk(View()) && deg == Degree(kind) && sep == Sep(kind) && endptr == deg
    }

    method RandomUnlocked() returns (i: nat)
      requires Set()
      modifies this, table
      ensures table == old(table) && table[0] == old(table[0]) && Set()
      ensures View() == Next(old(View())) && i == Output(old(View()))
    {
      ghost var g := View();
      NextPointers(g);
      if kind == 0 {
        i := (table[1] * LCG_MUL + LCG_ADD) % (WORD / 2);
        table[1] := i;
        assert table[1..] == g.words[0 := i];
      } else {
        var f, r := fptr, rptr;
        table[f + 1] := (table[f + 1] + table[r + 1]) % WORD;
        assert table[1..] == g.words[f := Sum(g)];
        i := table[f + 1] / 2;
        f := f + 1;
        if f >= endptr {
          f := 0;
          r := r + 1;
        } else {
          r := r + 1;
          if r >= endptr {
            r := 0;
          }
        }
        fptr := f;
        rptr := r;
      }
    }

    /** The fill of srandom_unlocked. */
    method FillTable(x: nat)
      requires Set() && x < WORD && kind > 0
      modifies table
      ensures table[0] == old(table[0]) && table[1..] == Fill(x, deg) + old(table[1..])[deg..]
    {
      hide Fill;
      FillStep(x, 1);
      table[1] := x;
      var i := 1;
      while i < deg
        invariant 1 <= i <= deg && table[1..1 + i] == Fill(x, i) && table[0] == old(table[0])
        invariant forall j: nat | 1 + i <= j < table.Length :: table[j] == old(table[j])
      {
        FillStep(x, i);
        assert table[i] == table[1..1 + i][i - 1];
        table[i + 1] := (LCG_MUL * table[i] + LCG_ADD) % WORD;
        assert table[1..2 + i] == table[1..1 + i] + [table[i + 1]];
        i := i + 1;
      }
      assert table[1..] == table[1..1 + deg] + table[1 + deg..];
    }

    method SrandomUnlocked(x: nat)
      requires Set() && x < WORD
      modifies this, table
      ensures table == old(table) && table[0] == old(table[0]) && Set()
      ensures View() == Seeded(old(View()), x)
    {
      hide Seeded, Fill, After, Next;
      ghost var g := View();
      SeededIs(g, x);
      if kind == 0 {
        table[1] := x;
        assert table[1..] == g.words[0 := x];
        return;
      }
      FillTable(x);
      fptr := sep;
      rptr := 0;
      ghost var filled := Filled(kind, g.words, x);
      assert View() == filled;
      var i := 0;
      while i < 10 * deg
        invariant i <= 10 * deg && table == old(table) && table[0] == old(table[0]) && Set() && kind == g.kind
        invariant After(View(), 10 * deg - i) == After(filled, 10 * deg)
      {
        AfterIs(View(), 10 * deg - i);
        var _ := RandomUnlocked();
        i := i + 1;
      }
      AfterIs(View(), 0);
    }

    /** Saves the place of the rear pointer in the header. */
    method SaveHeader()
      requires Valid()
      modifies table
      ensures Valid() && table[..] == [Header(old(View()))] + old(View()).words && View() == old(View())
    {
      ghost var g := View();
      SaveLoad(g, 0, 0);
      HeaderKind(g);
      table[0] := if kind == 0 then 0 else MAX_TYPES * rptr + kind;
      assert table[..] == [Header(g)] + g.words;
    }

    /** Returns the table that was in use, or nothing when `n` bytes are too few. */
    method InitState(x: nat, t: array<nat>, n: nat) returns (o: array?<nat>)
      requires Valid() && x < WORD && n <= 4 * t.Length && Words(t[..])
      modifies this, table, t
      ensures Valid()
      ensures t != old(table) ==> old(table)[..] == [Header(old(View()))] + old(View().words)
      ensures n < BREAK_0 ==>
                o == null && table == old(table) && View() == old(View())
                && (t != table ==> t[..] == old(t[..]))
      ensures n >= BREAK_0 ==> o == old(table) && table == t && t[0] == Header(View())
      ensures n >= BREAK_0 ==> SeededIn(old(View()), old(t[1..]), KindFor(n), x, View())
    {
      hide Seeded;
      SaveHeader();
      assert t.Length > 0 ==> t[1..] == old(t[1..]);
      if n < BREAK_0 {
        return null;
      }
      o := table;
      kind := KindFor(n);
      deg := Degree(kind);
      sep := Sep(kind);
      table := t;
      endptr := deg;
      if kind > 0 {
        fptr := sep % deg;
        rptr := 0;
      }
      ghost var g := View();
      assert Words(g.words);
      SrandomUnlocked(x);
      SaveLoad(View(), 0, 0);
      HeaderKind(View());
      ghost var after := View();
      table[0] := if kind == 0 then 0 else MAX_TYPES * rptr + kind;
      assert table[..] == [Header(after)] + after.words;
    }

    /** The table must be one that InitState has made. */
    method SetState(t: array<nat>) returns (o: array<nat>)
      requires Valid() && Stored(t[..])
      modifies this, table
      ensures Valid() && table == t && o == old(table)
      ensures t != o ==> o[..] == [Header(old(View()))] + old(View().words) && t[..] == old(t[..])
      ensures View() == Loaded(old(t[..]), old(fptr), old(rptr))
    {
      ghost var was := t[..];
      var newKind := t[0] % MAX_TYPES;
      var rear := t[0] / MAX_TYPES;
      o := table;
      SaveHeader();
      assert t[1..] == was[1..];
      kind := newKind;
      deg := Degree(newKind);
      sep := Sep(newKind);
      table := t;
      if kind != 0 {
        rptr := rear;
        fptr := (rear + sep) % deg;
      }
      endptr := deg;
    }
  }

  lemma SeededIs(g: Gen, x: nat)
    requires GenOk(g) && x < WORD
    ensures Seeded(g, x) == if g.kind == 0 then g.(words := g.words[0 := x])
            else After(Filled(g.kind, g.words, x), 10 * Degree(g.kind))
  {
  }

  lemma AfterIs(g: Gen, n: nat)
    requires GenOk(g)
    ensures n == 0 ==> After(g, n) == g
    ensures n > 0 ==> GenOk(Next(g)) && After(g, n) == After(Next(g), n - 1)
  {
    NextPointers(g);
  }

  /**
   * `after` is the generator of type `kind` seeded with `x` in a table with these words; `before` was the one
   * in use.
   */
  ghost predicate SeededIn(before: Gen, words: seq<nat>, kind: nat, x: nat, after: Gen) {
    && kind < MAX_TYPES && x < WORD
    && var g := if kind == 0 then Gen(0, words, before.front, before.rear)
        else Gen(kind, words, Sep(kind) % Degree(kind), 0);
       GenOk(g) && after == Seeded(g, x)
  }
}
