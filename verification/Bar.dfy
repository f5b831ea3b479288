/** The bar: customers and bartenders around shared orders, glasses and bottles, step by step. */
module Bar {
  const NOTHING: nat := 0
  const NBOTTLES: nat := 13

  /** struct order: state 0 is no order, 1 given, 2 taken by a bartender, 3 handed to the customer. */
  datatype Order = Order(ing: seq<nat>, glass: nat, ordernumber: nat, state: nat)

  /** struct glass: state 0 is on the shelf, 1 in use. */
  datatype Glass = Glass(contents: seq<nat>, state: nat, ordernumber: nat)

  // ----- the scans and the pouring

  /** The least index whose element satisfies `p`, or the length if there is none. */
  function First<T>(s: seq<T>, p: T -> bool): (k: nat)
    ensures k <= |s| && (k < |s| ==> p(s[k])) && forall j: nat | j < k :: !p(s[j])
  {
    if s == [] then 0
    else if p(s[0]) then 0
    else
      var k := First(s[1..], p);
      assert forall j: nat | 0 < j < k + 1 :: s[j] == s[1..][j - 1];
      k + 1
  }

  lemma FirstIs<T>(s: seq<T>, p: T -> bool, k: nat)
    requires k <= |s| && (k < |s| ==> p(s[k])) && forall j: nat | j < k :: !p(s[j])
    ensures First(s, p) == k
  {
    var f := First(s, p);
  }

  function StateIs(v: nat): Order -> bool {
    (o: Order) => o.state == v
  }

  function OnShelf(): Glass -> bool {
    (g: Glass) => g.state == 0
  }

  /** The scan of submit_order, with what it writes. */
  method PlaceScan(orders: array<Order>, ing: seq<nat>) returns (i: nat)
    modifies orders
    ensures i == First(old(orders[..]), StateIs(0))
    ensures orders[..] == if i < orders.Length
                          then old(orders[..])[i := old(orders[..])[i].(ing := ing, state := 1, ordernumber := i)]
                          else old(orders[..])
  {
    i := 0;
    while i < orders.Length
      invariant i <= orders.Length && orders[..] == old(orders[..])
      invariant forall j: nat | j < i :: !StateIs(0)(orders[..][j])
    {
      if orders[i].state == 0 {
        FirstIs(orders[..], StateIs(0), i);
        orders[i] := orders[i].(ing := ing, state := 1, ordernumber := i);
        return;
      }
      i := i + 1;
    }
    FirstIs(orders[..], StateIs(0), i);
  }

  /** The scan of take_order; `found` is false where the kernel panics. */
  method TakeScan(orders: array<Order>) returns (found: bool, i: nat)
    modifies orders
    ensures i == First(old(orders[..]), StateIs(1)) && (found <==> i < orders.Length)
    ensures orders[..] == if found then old(orders[..])[i := old(orders[..])[i].(state := 2)] else old(orders[..])
  {
    i := 0;
    while i < orders.Length
      invariant i <= orders.Length && orders[..] == old(orders[..])
      invariant forall j: nat | j < i :: !StateIs(1)(orders[..][j])
    {
      if orders[i].state == 1 {
        FirstIs(orders[..], StateIs(1), i);
        orders[i] := orders[i].(state := 2);
        return true, i;
      }
      i := i + 1;
    }
    FirstIs(orders[..], StateIs(1), i);
    found := false;
  }

  /** The scan of fill_order for a glass. */
  method GlassScan(glasses: array<Glass>) returns (i: nat)
    modifies glasses
    ensures i == First(old(glasses[..]), OnShelf())
    ensures glasses[..] == if i < glasses.Length then old(glasses[..])[i := old(glasses[..])[i].(state := 1)]
                           else old(glasses[..])
  {
    i := 0;
    while i < glasses.Length
      invariant i <= glasses.Length && glasses[..] == old(glasses[..])
      invariant forall j: nat | j < i :: !OnShelf()(glasses[..][j])
    {
      if glasses[i].state == 0 {
        FirstIs(glasses[..], OnShelf(), i);
        glasses[i] := glasses[i].(state := 1);
        return;
      }
      i := i + 1;
    }
    FirstIs(glasses[..], OnShelf(), i);
  }

  /** One ingredient, if it is a real one. */
  function Dash(x: nat): (r: seq<nat>)
    ensures |r| <= 1
  {
    if x == NOTHING then [] else [x]
  }

  /** The ingredients that are poured, in order. */
  function Real(ing: seq<nat>): (r: seq<nat>)
    ensures |r| <= |ing|
  {
    if ing == [] then [] else Dash(ing[0]) + Real(ing[1..])
  }

  function Nothings(n: nat): (z: seq<nat>) {
    seq(n, _ => NOTHING)
  }

  /** What a drink made of `ing` holds: its real ingredients in order, then nothing. */
  function Poured(ing: seq<nat>): (c: seq<nat>)
    ensures |c| == |ing|
  {
    Real(ing) + Nothings(|ing| - |Real(ing)|)
  }

  /** What pour leaves in a glass that held `before`. */
  function PourInto(before: seq<nat>, ing: seq<nat>): (c: seq<nat>)
    requires |before| == |ing|
    ensures |c| == |before|
  {
    Real(ing) + before[|Real(ing)|..]
  }

  lemma PouredIntoEmpty(ing: seq<nat>)
    ensures PourInto(Nothings(|ing|), ing) == Poured(ing)
  {
  }

  function Dose(doses: seq<nat>, x: nat): (d: seq<nat>)
    requires x < |doses|
    ensures |d| == |doses|
  {
    if x == NOTHING then doses else doses[x := doses[x] + 1]
  }

  /** The doses after pouring: one more of each real ingredient, as often as it occurs. */
  function Doses(doses: seq<nat>, ing: seq<nat>): (d: seq<nat>)
    requires forall k | 0 <= k < |ing| :: ing[k] < |doses|
    ensures |d| == |doses|
    decreases |ing|
  {
    if ing == [] then doses else Doses(Dose(doses, ing[0]), ing[1..])
  }

  lemma ThreeOf(doses: seq<nat>, a: nat, b: nat, c: nat)
    requires a < |doses| && b < |doses| && c < |doses|
    ensures Real([a, b, c]) == Dash(a) + Dash(b) + Dash(c)
    ensures Doses(doses, [a, b, c]) == Dose(Dose(Dose(doses, a), b), c)
  {
    assert [a, b, c][1..] == [b, c] && [b, c][1..] == [c] && [c][1..] == [];
    assert Real([c]) == Dash(c) + Real([]);
    assert Real([b, c]) == Dash(b) + Real([c]);
    assert Doses(Dose(Dose(doses, a), b), [c]) == Doses(Dose(Dose(Dose(doses, a), b), c), []);
  }

  lemma {:induction false} DosesCount(doses: seq<nat>, ing: seq<nat>, k: nat)
    requires (forall j | 0 <= j < |ing| :: ing[j] < |doses|) && k < |doses|
    ensures Doses(doses, ing)[k] == doses[k] + multiset(Real(ing))[k]
    decreases |ing|
  {
    if ing != [] {
      DosesCount(Dose(doses, ing[0]), ing[1..], k);
    }
  }

  /** pour: three ingredients into a glass. */
  method Pour(contents: array<nat>, bottles: array<nat>, ing1: nat, ing2: nat, ing3: nat)
    requires contents.Length == 3 && bottles.Length == NBOTTLES && contents != bottles
    requires ing1 < NBOTTLES && ing2 < NBOTTLES && ing3 < NBOTTLES
    modifies contents, bottles
    ensures contents[..] == PourInto(old(contents[..]), [ing1, ing2, ing3])
    ensures bottles[..] == Doses(old(bottles[..]), [ing1, ing2, ing3])
  {
    hide Real, Doses;
    ThreeOf(bottles[..], ing1, ing2, ing3);
    ghost var before, doses := contents[..], bottles[..];
    var i := 0;
    if ing1 != NOTHING {
      contents[i] := ing1;
      i := i + 1;
      bottles[ing1] := bottles[ing1] + 1;
    }
    ghost var done := Dash(ing1);
    assert bottles[..] == Dose(doses, ing1) && contents[..] == done + before[i..] && i == |done|;
    if ing2 != NOTHING {
      contents[i] := ing2;
      PutNext(done, before, ing2, contents[..]);
      i := i + 1;
      bottles[ing2] := bottles[ing2] + 1;
    }
    done := done + Dash(ing2);
    assert bottles[..] == Dose(Dose(doses, ing1), ing2);
    assert contents[..] == done + before[i..] && i == |done|;
    if ing3 != NOTHING {
      contents[i] := ing3;
      PutNext(done, before, ing3, contents[..]);
      bottles[ing3] := bottles[ing3] + 1;
    }
    assert bottles[..] == Dose(Dose(Dose(doses, ing1), ing2), ing3);
    assert done + Dash(ing3) == Dash(ing1) + Dash(ing2) + Dash(ing3);
  }

  /** One ingredient more behind those in the glass. */
  lemma PutNext(done: seq<nat>, before: seq<nat>, x: nat, now: seq<nat>)
    requires |done| < |before| && now == (done + before[|done|..])[|done| := x]
    ensures now == (done + [x]) + before[|done| + 1..]
  {
  }
}
