/** The additive random number generator: a table of words with a front and a rear pointer that go around it. */
module Random {
  import opened Arithmetic

  const WORD: nat := 0x1_0000_0000
  const MAX_TYPES: nat := 5
  const LCG_MUL: nat := 1103515245
  const LCG_ADD: nat := 12345

  /** degrees[] and seps[]. */
  function Degree(kind: nat): nat
    requires kind < MAX_TYPES
  {
    [0, 7, 15, 31, 63][kind]
  }

  function Sep(kind: nat): (s: nat)
    requires kind < MAX_TYPES
    ensures kind > 0 ==> 0 < s < Degree(kind)
  {
    [0, 3, 1, 3, 1][kind]
  }

  /** The active generator: its type, the words behind the header of its table, and the two pointers as indices. */
  datatype Gen = Gen(kind: nat, words: seq<nat>, front: nat, rear: nat)

  ghost predicate Words(words: seq<nat>) {
    forall i: nat | i < |words| :: words[i] < WORD
  }

  ghost predicate GenOk(g: Gen) {
    && g.kind < MAX_TYPES && |g.words| > 0 && |g.words| >= Degree(g.kind) && Words(g.words)
    && (g.kind > 0 ==> g.rear < Degree(g.kind) && g.front == (g.rear + Sep(g.kind)) % Degree(g.kind))
  }

  /** The sum that one call of random() stores. */
  function Sum(g: Gen): (v: nat)
    requires GenOk(g)
    ensures v < WORD
  {
    if g.kind == 0 then (g.words[0] * LCG_MUL + LCG_ADD) % (WORD / 2) else (g.words[g.front] + g.words[g.rear]) % WORD
  }

  /** What random() returns: 31 bits. */
  function Output(g: Gen): (v: nat)
    requires GenOk(g)
    ensures v < WORD / 2
  {
    if g.kind == 0 then Sum(g) else Sum(g) / 2
  }

  /** Only one pointer can go around at a time: the rear one is not tested when the front one has. */
  function Next(g: Gen): Gen
    requires GenOk(g)
  {
    if g.kind == 0 then g.(words := g.words[0 := Sum(g)])
    else
      var deg := Degree(g.kind);
      var words := g.words[g.front := Sum(g)];
      if g.front + 1 >= deg then Gen(g.kind, words, 0, g.rear + 1)
      else if g.rear + 1 >= deg then Gen(g.kind, words, g.front + 1, 0)
      else Gen(g.kind, words, g.front + 1, g.rear + 1)
  }

  /** The front pointer stays `Sep` places before the rear one, and both go around. */
  lemma NextPointers(g: Gen)
    requires GenOk(g)
    ensures GenOk(Next(g)) && |Next(g).words| == |g.words| && Next(g).kind == g.kind
    ensures g.kind > 0 ==>
              Next(g).rear == Around(g.rear + 1, Degree(g.kind))
              && Next(g).front == Around(g.front + 1, Degree(g.kind))
  {
    if g.kind > 0 {
      var deg, sep := Degree(g.kind), Sep(g.kind);
      AroundIs(g.rear + sep, deg);
      AroundIs(Around(g.rear + 1, deg) + sep, deg);
    }
  }

  /** The table read from the front pointer on: the last `Degree` sums, oldest first. */
  function Window(g: Gen): (w: seq<nat>)
    requires GenOk(g) && g.kind > 0
    ensures |w| == Degree(g.kind)
    ensures forall k: nat | k < |w| :: w[k] == g.words[Around(g.front + k, Degree(g.kind))]
  {
    seq(Degree(g.kind), k requires 0 <= k < Degree(g.kind) => g.words[Around(g.front + k, Degree(g.kind))])
  }

  /** One call drops the oldest sum and adds the recurrence's next one. */
  lemma NextWindow(g: Gen)
    requires GenOk(g) && g.kind > 0
    ensures GenOk(Next(g)) && Next(g).kind == g.kind && Window(Next(g)) == Window(g)[1..] + [Sum(g)]
    ensures Sum(g) == (Window(g)[0] + Window(g)[Degree(g.kind) - Sep(g.kind)]) % WORD
  {
    hide Degree, Sep, Sum, Next;
    NextPointers(g);
    NextWords(g);
    var deg, sep := Degree(g.kind), Sep(g.kind);
    AroundIs(g.rear + sep, deg);
    var w, v := Window(Next(g)), Window(g)[1..] + [Sum(g)];
    forall k: nat | k < deg
      ensures w[k] == v[k]
    {
      assert w[k] == Next(g).words[Around(Next(g).front + k, deg)];
    }
    assert Window(g)[0] == g.words[g.front];
    assert Window(g)[deg - sep] == g.words[Around(g.front + (deg - sep), deg)];
    SumIs(g);
  }

  lemma NextWords(g: Gen)
    requires GenOk(g) && g.kind > 0
    ensures Next(g).words == g.words[g.front := Sum(g)]
  {
  }

  lemma SumIs(g: Gen)
    requires GenOk(g) && g.kind > 0
    ensures Sum(g) == (g.words[g.front] + g.words[g.rear]) % WORD
  {
  }

  // ----- any number of calls

  function After(g: Gen, n: nat): (h: Gen)
    requires GenOk(g)
    ensures GenOk(h) && h.kind == g.kind && |h.words| == |g.words|
    decreases n
  {
    if n == 0 then g else NextPointers(g); After(Next(g), n - 1)
  }

  /** The sums of `n` calls. */
  function Sums(g: Gen, n: nat): (s: seq<nat>)
    requires GenOk(g)
    ensures |s| == n
    decreases n
  {
    if n == 0 then [] else NextPointers(g); [Sum(g)] + Sums(Next(g), n - 1)
  }

  /** Word `i` of a stream is the sum of the words `deg` and `sep` places before it. */
  ghost predicate Recurs(s: seq<nat>, i: nat, deg: nat, sep: nat) {
    deg <= i < |s| && 0 < sep <= deg && s[i] == (s[i - deg] + s[i - sep]) % WORD
  }

  /** Whatever the table holds, its words and the sums of all later calls form one linear recurrence. */
  lemma {:induction false} Recurrence(g: Gen, n: nat)
    requires GenOk(g) && g.kind > 0
    ensures forall i: nat | Degree(g.kind) <= i < Degree(g.kind) + n ::
              Recurs(Window(g) + Sums(g, n), i, Degree(g.kind), Sep(g.kind))
    decreases n
  {
    hide Degree, Sep, Sum, Window, Next, GenOk, Recurs;
    if n > 0 {
      NextPointers(g);
      NextWindow(g);
      var h, deg, sep := Next(g), Degree(g.kind), Sep(g.kind);
      Recurrence(h, n - 1);
      var s, t := Window(g) + Sums(g, n), Window(h) + Sums(h, n - 1);
      WindowSize(g);
      Shifted(Window(g), Sum(g), Sums(h, n - 1));
      assert s[deg] == Sum(g) && s[0] == Window(g)[0] && s[deg - sep] == Window(g)[deg - sep];
      forall i: nat | deg <= i < deg + n
        ensures Recurs(s, i, deg, sep)
      {
        if i > deg {
          assert Recurs(t, i - 1, deg, sep);
          RecursShift(s, t, i, deg, sep);
        } else {
          RecursFirst(s, deg, sep);
        }
      }
    }
  }

  lemma RecursFirst(s: seq<nat>, deg: nat, sep: nat)
    requires 0 < sep <= deg < |s| && s[deg] == (s[0] + s[deg - sep]) % WORD
    ensures Recurs(s, deg, deg, sep)
  {
  }

  lemma Shifted(w: seq<nat>, v: nat, rest: seq<nat>)
    requires w != []
    ensures (w + ([v] + rest))[1..] == (w[1..] + [v]) + rest
  {
  }

  lemma RecursShift(s: seq<nat>, t: seq<nat>, i: nat, deg: nat, sep: nat)
    requires i > 0 && Recurs(t, i - 1, deg, sep) && |s| == |t| + 1 && s[1..] == t
    ensures Recurs(s, i, deg, sep)
  {
    assert s[i] == t[i - 1] && s[i - deg] == t[i - 1 - deg] && s[i - sep] == t[i - 1 - sep];
  }

  lemma WindowSize(g: Gen)
    requires GenOk(g) && g.kind > 0
    ensures |Window(g)| == Degree(g.kind) > Sep(g.kind) > 0
  {
  }

  lemma {:induction false} RearMoves(g: Gen, n: nat)
    requires GenOk(g) && g.kind > 0
    ensures g.rear < Degree(g.kind) && After(g, n).rear == Mod(g.rear + n, Degree(g.kind))
    decreases n
  {
    hide Degree, Sep, Next, Around, GenOk, Mod;
    FrontIs(g);
    NextPointers(g);
    StepAround(g.rear, n, Degree(g.kind));
    if n > 0 {
      RearMoves(Next(g), n - 1);
    }
  }

  lemma StepAround(r: nat, n: nat, deg: nat)
    requires r < deg
    ensures n == 0 ==> Mod(r + n, deg) == r
    ensures n > 0 ==> Mod(Around(r + 1, deg) + (n - 1), deg) == Mod(r + n, deg)
  {
    if n == 0 {
      Remainder(r, 0, r, deg);
    } else if r + 1 == deg {
      AddModulus(n - 1, deg);
    }
  }

  /** Both pointers move one place per call, and keep their distance. */
  lemma Pointers(g: Gen, n: nat)
    requires GenOk(g) && g.kind > 0
    ensures After(g, n).rear == Mod(g.rear + n, Degree(g.kind))
    ensures After(g, n).front == Mod(After(g, n).rear + Sep(g.kind), Degree(g.kind))
  {
    RearMoves(g, n);
    FrontIs(After(g, n));
  }

  lemma FrontIs(g: Gen)
    requires GenOk(g) && g.kind > 0
    ensures g.kind < MAX_TYPES && g.rear < Degree(g.kind) && g.front == (g.rear + Sep(g.kind)) % Degree(g.kind)
  {
  }

  // ----- seeding

  /** The first `n` words of the linear congruential fill. */
  function Fill(x: nat, n: nat): (s: seq<nat>)
    requires x < WORD
    ensures |s| == n && Words(s)
  {
    if n == 0 then [] else if n == 1 then [x]
    else var s := Fill(x, n - 1); s + [(LCG_MUL * s[n - 2] + LCG_ADD) % WORD]
  }

  lemma FillStep(x: nat, i: nat)
    requires x < WORD && i > 0
    ensures Fill(x, 1) == [x] && Fill(x, i + 1) == Fill(x, i) + [(LCG_MUL * Fill(x, i)[i - 1] + LCG_ADD) % WORD]
  {
  }

  /** The generator that srandom_unlocked starts from: the filled table, before it is cycled. */
  function Filled(kind: nat, words: seq<nat>, x: nat): (g: Gen)
    requires 0 < kind < MAX_TYPES && x < WORD && |words| >= Degree(kind) && Words(words)
    ensures GenOk(g)
  {
    Gen(kind, Fill(x, Degree(kind)) + words[Degree(kind)..], Sep(kind), 0)
  }

  function Seeded(g: Gen, x: nat): (h: Gen)
    requires GenOk(g) && x < WORD
    ensures GenOk(h) && h.kind == g.kind && |h.words| == |g.words|
  {
    if g.kind == 0 then g.(words := g.words[0 := x]) else After(Filled(g.kind, g.words, x), 10 * Degree(g.kind))
  }

  /** Cycling ten times around brings both pointers back to where seeding put them. */
  lemma SeedingReturns(g: Gen, x: nat)
    requires GenOk(g) && x < WORD && g.kind > 0
    ensures Seeded(g, x).rear == 0 && Seeded(g, x).front == Sep(g.kind)
  {
    var deg := Degree(g.kind);
    Pointers(Filled(g.kind, g.words, x), 10 * deg);
    assert (10 * deg) % deg == 0;
    AroundIs(Sep(g.kind), deg);
  }

  // ----- tables with their header

  /** The header word of a table: the type and the place of the rear pointer. */
  function Header(g: Gen): nat {
    if g.kind == 0 then 0 else MAX_TYPES * g.rear + g.kind
  }

  /** A table that initstate has made: its header names a type that fits, and a place in it. */
  ghost predicate Stored(table: seq<nat>) {
    && |table| >= 2 && Words(table)
    && var kind := table[0] % MAX_TYPES;
       |table| > Degree(kind) && table[0] / MAX_TYPES < (if kind == 0 then 1 else Degree(kind))
  }

  /** The generator that setstate makes of a table; one of type 0 leaves the pointers where they were. */
  function Loaded(table: seq<nat>, front: nat, rear: nat): (g: Gen)
    requires Stored(table)
    ensures GenOk(g)
  {
    var kind := table[0] % MAX_TYPES;
    var r := table[0] / MAX_TYPES;
    if kind == 0 then Gen(0, table[1..], front, rear)
    else Gen(kind, table[1..], (r + Sep(kind)) % Degree(kind), r)
  }

  /** Saving a generator in its table and loading it again gives it back. */
  lemma SaveLoad(g: Gen, front: nat, rear: nat)
    requires GenOk(g)
    ensures Stored([Header(g)] + g.words)
    ensures var h := Loaded([Header(g)] + g.words, front, rear);
            h.kind == g.kind && h.words == g.words && (g.kind > 0 ==> h == g)
  {
    var t := [Header(g)] + g.words;
    assert t[1..] == g.words;
    if g.kind > 0 {
      assert (MAX_TYPES * g.rear + g.kind) % MAX_TYPES == g.kind && (MAX_TYPES * g.rear + g.kind) / MAX_TYPES == g.rear;
    }
  }
}
