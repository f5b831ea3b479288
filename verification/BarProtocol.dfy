/** Every interleaving of customers and bartenders, and what holds at each point of it. */
module BarProtocol {
  import opened Bar

  // ----- counting

  function Count<T>(s: seq<T>, p: T -> bool): (n: nat)
    ensures n <= |s|
  {
    if s == [] then 0 else Count(s[..|s| - 1], p) + if p(s[|s| - 1]) then 1 else 0
  }

  function One(b: bool): nat {
    if b then 1 else 0
  }

  lemma {:induction false} CountUpdate<T>(s: seq<T>, i: nat, x: T, p: T -> bool)
    requires i < |s|
    ensures Count(s[i := x], p) == Count(s, p) - One(p(s[i])) + One(p(x))
    ensures One(p(s[i])) <= Count(s, p)
    decreases |s|
  {
    var n := |s| - 1;
    if i < n {
      CountUpdate(s[..n], i, x, p);
      assert s[i := x][..n] == s[..n][i := x];
    } else {
      assert s[i := x][..n] == s[..n];
    }
  }

  /** Two different elements that satisfy `p` count for two. */
  lemma CountTwo<T>(s: seq<T>, i: nat, j: nat, p: T -> bool)
    requires i < |s| && j < |s| && i != j && p(s[i]) && p(s[j])
    ensures Count(s, p) >= 2
    decreases |s|
  {
    var n := |s| - 1;
    if i < n && j < n {
      CountTwo(s[..n], i, j, p);
    } else {
      CountUpdate(s[..n], if i < n then i else j, s[if i < n then i else j], p);
    }
  }

  lemma {:induction false} CountSome<T>(s: seq<T>, p: T -> bool) returns (i: nat)
    requires Count(s, p) > 0
    ensures i < |s| && p(s[i])
    decreases |s|
  {
    var n := |s| - 1;
    if p(s[n]) {
      i := n;
    } else {
      i := CountSome(s[..n], p);
    }
  }

  lemma {:induction false} CountNotAll<T>(s: seq<T>, p: T -> bool) returns (i: nat)
    requires Count(s, p) < |s|
    ensures i < |s| && !p(s[i])
    decreases |s|
  {
    var n := |s| - 1;
    if p(s[n]) {
      i := CountNotAll(s[..n], p);
    } else {
      i := n;
    }
  }

  lemma {:induction false} CountNone<T>(s: seq<T>, p: T -> bool)
    requires forall i: nat | i < |s| :: !p(s[i])
    ensures Count(s, p) == 0
    decreases |s|
  {
    if s != [] {
      CountNone(s[..|s| - 1], p);
    }
  }

  // ----- the state

  // Where a customer is: what it does next.
  const WAIT := 0
  const LOCK_ORDERS := 1
  const PLACE := 2
  const UNLOCK_PLACED := 3
  const ANNOUNCE := 4
  const AWAIT := 5
  const FETCH := 6
  const LABEL := 7
  const LOCK_GIVEN := 8
  const GIVE := 9
  const UNLOCK_GIVEN := 10
  const DRINK := 11
  const LOCK_GLASS := 12
  const PUT_BACK := 13
  const UNLOCK_GLASS := 14
  const REFILL := 15
  const LOCK_RESET := 16
  const RESET := 17
  const UNLOCK_RESET := 18
  const LOCK_DRINKERS := 19
  const LEAVE := 20
  const CLOSE := 21
  const UNLOCK_DRINKERS := 22
  const HOME := 23
  const NO_SLOT := 24

  // Where a bartender is.
  const LOOP := 0
  const TAKE_WAIT := 1
  const LOCK_TAKE := 2
  const TAKE := 3
  const UNLOCK_TAKE := 4
  const GLASS_WAIT := 5
  const LOCK_SHELF := 6
  const PICK := 7
  const UNLOCK_SHELF := 8
  const ATTACH := 9
  const LOCK_BOTTLES := 10
  const POUR := 11
  const UNLOCK_BOTTLES := 12
  const SERVE := 13
  const WENT_HOME := 14
  const PANIC := 15
  const NO_GLASS := 16

  /** A customer: its locals, and, once it is the last one, how many closing orders are left to place. */
  datatype Customer = Customer(pc: nat, slot: nat, glass: nat, num: nat, ing: seq<nat>, last: bool, left: nat)

  datatype Bartender = Bartender(pc: nat, order: nat, glass: nat)

  /** Auxiliary: who is concerned with an order slot. */
  datatype Use = Unused | Placed(c: nat) | Taken(c: nat, b: nat) | Served(c: nat)

  /** Auxiliary: which order a glass is for. */
  datatype GlassUse = Shelf | For(order: nat)

  datatype State = State(
    orders: seq<Order>, glasses: seq<Glass>, bottles: seq<nat>,
    ordersready: nat, emptyglasses: nat, ordercomplete: seq<nat>,
    orderslock: bool, glasslock: bool, bottleslock: bool, drinkerslock: bool,
    ndrinkers: int, cs: seq<Customer>, bs: seq<Bartender>,
    uses: seq<Use>, glassuses: seq<GlassUse>, poured: seq<nat>)

  /** bar_open, with `nc` customers, `ng` glasses and `nb` bartenders. */
  function Open(nc: nat, ng: nat, nb: nat): State {
    State(seq(nc, _ => Order([], 0, 0, 0)), seq(ng, _ => Glass(Nothings(3), 0, 0)), Nothings(NBOTTLES),
          0, ng, Nothings(nc), false, false, false, false, nc,
          seq(nc, _ => Customer(WAIT, 0, 0, 0, [], false, 0)), seq(nb, _ => Bartender(LOOP, 0, 0)),
          seq(nc, _ => Unused), seq(ng, _ => Shelf), [])
  }

  predicate IsDrink(ing: seq<nat>) {
    |ing| == 3 && forall k: nat | k < 3 :: ing[k] < NBOTTLES
  }

  /** What a customer does when it is free to choose: order a drink or go home. */
  datatype Choice = Drink(ing: seq<nat>) | GoHome

  datatype Move = CustomerMove(c: nat, choice: Choice) | BartenderMove(b: nat)

  // ----- the steps

  function SetC(s: State, c: nat, x: Customer): State
    requires c < |s.cs|
  {
    s.(cs := s.cs[c := x])
  }

  function SetB(s: State, b: nat, x: Bartender): State
    requires b < |s.bs|
  {
    s.(bs := s.bs[b := x])
  }

  /** Every index that a step uses lies inside its array. */
  predicate Sized(s: State) {
    |s.orders| == |s.ordercomplete| == |s.uses| == |s.cs| && |s.glasses| == |s.glassuses| && |s.bottles| == NBOTTLES
  }

  /** Customer `c` stands at `pc`. */
  predicate AtC(s: State, c: nat, pc: nat) {
    Sized(s) && c < |s.cs| && s.cs[c].pc == pc
  }

  predicate AtB(s: State, b: nat, pc: nat) {
    Sized(s) && b < |s.bs| && s.bs[b].pc == pc
  }

  /** The customer with its counter at the next line. */
  function On(x: Customer): Customer {
    x.(pc := x.pc + 1)
  }

  function OnB(x: Bartender): Bartender {
    x.(pc := x.pc + 1)
  }

  /** The customer can take its step: the lock it wants is free, the semaphore it waits for is positive. */
  predicate CanC(s: State, c: nat, choice: Choice) {
    Sized(s) && c < |s.cs| &&
    var x := s.cs[c];
    && x.pc < HOME
    && (x.pc == WAIT && choice.Drink? ==> IsDrink(choice.ing))
    && (x.pc in {LOCK_ORDERS, LOCK_GIVEN, LOCK_RESET} ==> !s.orderslock)
    && (x.pc == LOCK_GLASS ==> !s.glasslock)
    && (x.pc == LOCK_DRINKERS ==> !s.drinkerslock)
    && (x.pc in {AWAIT, FETCH, GIVE} ==> x.slot < |s.orders|)
    && (x.pc == AWAIT ==> s.ordercomplete[x.slot] > 0)
    && (x.pc in {LABEL, DRINK, PUT_BACK} ==> x.glass < |s.glasses|)
    && (x.pc == RESET ==> x.num < |s.orders|)
  }

  /** At the top of its loop, and in crawl_home between two closing orders. */
  function Choose(s: State, c: nat, choice: Choice): State
    requires c < |s.cs|
  {
    var x := s.cs[c];
    SetC(s, c, if x.pc == WAIT then
                 (if choice.Drink? then x.(pc := LOCK_ORDERS, ing := choice.ing) else x.(pc := LOCK_DRINKERS))
               else if x.left == 0 then x.(pc := UNLOCK_DRINKERS, last := false)
               else x.(pc := LOCK_ORDERS, ing := Nothings(3), left := x.left - 1))
  }

  /** Taking or releasing orderslock. */
  function OrdersLock(s: State, c: nat): State
    requires c < |s.cs|
  {
    var x := s.cs[c];
    SetC(s, c, if x.pc == UNLOCK_RESET then x.(pc := if x.last then CLOSE else WAIT) else On(x))
    .(orderslock := x.pc in {LOCK_ORDERS, LOCK_GIVEN, LOCK_RESET})
  }

  /** Taking or releasing one of the other locks. */
  function OtherLock(s: State, c: nat): State
    requires c < |s.cs|
  {
    var x := s.cs[c];
    var t := SetC(s, c, On(x));
    if x.pc in {LOCK_GLASS, UNLOCK_GLASS} then t.(glasslock := x.pc == LOCK_GLASS)
    else t.(drinkerslock := x.pc == LOCK_DRINKERS)
  }

  /** V on ordersready or on emptyglasses. */
  function Signal(s: State, c: nat): State
    requires c < |s.cs|
  {
    var x := s.cs[c];
    var t := SetC(s, c, On(x));
    if x.pc == ANNOUNCE then t.(ordersready := s.ordersready + 1) else t.(emptyglasses := s.emptyglasses + 1)
  }

  /** The scan of submit_order. */
  function PlaceOrder(s: State, c: nat): State
    requires AtC(s, c, PLACE)
  {
    var x, i := s.cs[c], First(s.orders, StateIs(0));
    if i == |s.orders| then SetC(s, c, x.(pc := NO_SLOT))
    else
      SetC(s, c, x.(pc := UNLOCK_PLACED, slot := i))
      .(orders := s.orders[i := s.orders[i].(ing := x.ing, state := 1, ordernumber := i)],
          uses := s.uses[i := Placed(c)])
  }

  /** P on ordercomplete. */
  function AwaitDrink(s: State, c: nat): State
    requires AtC(s, c, AWAIT) && s.cs[c].slot < |s.orders| && s.ordercomplete[s.cs[c].slot] > 0
  {
    var x := s.cs[c];
    SetC(s, c, On(x)).(ordercomplete := s.ordercomplete[x.slot := s.ordercomplete[x.slot] - 1])
  }

  function FetchGlass(s: State, c: nat): State
    requires AtC(s, c, FETCH) && s.cs[c].slot < |s.orders|
  {
    SetC(s, c, On(s.cs[c]).(glass := s.orders[s.cs[c].slot].glass))
  }

  function LabelGlass(s: State, c: nat): State
    requires AtC(s, c, LABEL) && s.cs[c].glass < |s.glasses|
  {
    var x := s.cs[c];
    SetC(s, c, On(x)).(glasses := s.glasses[x.glass := s.glasses[x.glass].(ordernumber := x.slot)])
  }

  function GiveDrink(s: State, c: nat): State
    requires AtC(s, c, GIVE) && s.cs[c].slot < |s.orders|
  {
    var x := s.cs[c];
    SetC(s, c, On(x)).(orders := s.orders[x.slot := s.orders[x.slot].(state := 3)])
  }

  /** Drinking up; the closing orders are not drunk. */
  function DrinkUp(s: State, c: nat): State
    requires AtC(s, c, DRINK) && s.cs[c].glass < |s.glasses|
  {
    var x := s.cs[c];
    var t := SetC(s, c, On(x));
    if x.last then t else t.(glasses := s.glasses[x.glass := s.glasses[x.glass].(contents := Nothings(3))])
  }

  /** The first part of return_glass. */
  function PutGlassBack(s: State, c: nat): State
    requires AtC(s, c, PUT_BACK) && s.cs[c].glass < |s.glasses|
  {
    var x := s.cs[c];
    SetC(s, c, On(x).(num := s.glasses[x.glass].ordernumber))
    .(glasses := s.glasses[x.glass := s.glasses[x.glass].(state := 0)], glassuses := s.glassuses[x.glass := Shelf])
  }

  /** The last part of return_glass. */
  function ResetOrder(s: State, c: nat): State
    requires AtC(s, c, RESET) && s.cs[c].num < |s.orders|
  {
    var x := s.cs[c];
    SetC(s, c, On(x)).(orders := s.orders[x.num := s.orders[x.num].(state := 0)], uses := s.uses[x.num := Unused])
  }

  /** crawl_home counts itself out, and the last customer prepares to place a closing order for each bartender. */
  function LeaveBar(s: State, c: nat): State
    requires AtC(s, c, LEAVE)
  {
    var x, last := s.cs[c], s.ndrinkers - 1 == 0;
    SetC(s, c, x.(pc := if last then CLOSE else UNLOCK_DRINKERS, last := last, left := |s.bs|))
    .(ndrinkers := s.ndrinkers - 1)
  }

  function StepC(s: State, c: nat, choice: Choice): State
    requires CanC(s, c, choice)
  {
    var pc := s.cs[c].pc;
    if pc in {WAIT, CLOSE} then Choose(s, c, choice)
    else if pc == PLACE then PlaceOrder(s, c)
    else if pc in {ANNOUNCE, REFILL} then Signal(s, c)
    else if pc == AWAIT then AwaitDrink(s, c)
    else if pc == FETCH then FetchGlass(s, c)
    else if pc == LABEL then LabelGlass(s, c)
    else if pc == GIVE then GiveDrink(s, c)
    else if pc == DRINK then DrinkUp(s, c)
    else if pc == PUT_BACK then PutGlassBack(s, c)
    else if pc == RESET then ResetOrder(s, c)
    else if pc == LEAVE then LeaveBar(s, c)
    else if pc in {LOCK_GLASS, UNLOCK_GLASS, LOCK_DRINKERS, UNLOCK_DRINKERS} then OtherLock(s, c)
    else OrdersLock(s, c)
  }

  predicate CanB(s: State, b: nat) {
    Sized(s) && b < |s.bs| &&
    var x := s.bs[b];
    && x.pc < WENT_HOME
    && (x.pc == TAKE_WAIT ==> s.ordersready > 0)
    && (x.pc == GLASS_WAIT ==> s.emptyglasses > 0)
    && (x.pc == LOCK_TAKE ==> !s.orderslock)
    && (x.pc == LOCK_SHELF ==> !s.glasslock)
    && (x.pc == LOCK_BOTTLES ==> !s.bottleslock)
    && (x.pc in {ATTACH, POUR, SERVE} ==> x.order < |s.orders|)
    && (x.pc == POUR ==> x.glass < |s.glasses| && IsDrink(s.orders[x.order].ing) && |s.glasses[x.glass].contents| == 3)
    && (x.pc == SERVE ==> s.orders[x.order].ordernumber < |s.orders|)
  }

  /** The bartender looks whether there are drinkers left. */
  function LookAround(s: State, b: nat): State
    requires b < |s.bs|
  {
    SetB(s, b, s.bs[b].(pc := if s.ndrinkers != 0 then TAKE_WAIT else WENT_HOME))
  }

  /** P on ordersready or on emptyglasses. */
  function WaitB(s: State, b: nat): State
    requires b < |s.bs| && (if s.bs[b].pc == TAKE_WAIT then s.ordersready > 0 else s.emptyglasses > 0)
  {
    var t := SetB(s, b, OnB(s.bs[b]));
    if s.bs[b].pc == TAKE_WAIT then t.(ordersready := s.ordersready - 1) else t.(emptyglasses := s.emptyglasses - 1)
  }

  /** Taking or releasing a lock. */
  function LockB(s: State, b: nat): State
    requires b < |s.bs|
  {
    var x := s.bs[b];
    var t := SetB(s, b, OnB(x));
    if x.pc in {LOCK_TAKE, UNLOCK_TAKE} then t.(orderslock := x.pc == LOCK_TAKE)
    else if x.pc in {LOCK_SHELF, UNLOCK_SHELF} then t.(glasslock := x.pc == LOCK_SHELF)
    else t.(bottleslock := x.pc == LOCK_BOTTLES)
  }

  /** Who placed the order in a slot. */
  function Placer(u: Use): nat {
    if u.Unused? then 0 else u.c
  }

  /** The scan of take_order. */
  function TakeOrder(s: State, b: nat): State
    requires AtB(s, b, TAKE)
  {
    var x, i := s.bs[b], First(s.orders, StateIs(1));
    if i == |s.orders| then SetB(s, b, x.(pc := PANIC))
    else
      SetB(s, b, x.(pc := UNLOCK_TAKE, order := i))
      .(orders := s.orders[i := s.orders[i].(state := 2)], uses := s.uses[i := Taken(Placer(s.uses[i]), b)])
  }

  /** The scan of fill_order. */
  function PickGlass(s: State, b: nat): State
    requires AtB(s, b, PICK)
  {
    var x, g := s.bs[b], First(s.glasses, OnShelf());
    if g == |s.glasses| then SetB(s, b, x.(pc := NO_GLASS))
    else
      SetB(s, b, x.(pc := UNLOCK_SHELF, glass := g))
      .(glasses := s.glasses[g := s.glasses[g].(state := 1)], glassuses := s.glassuses[g := For(x.order)])
  }

  function AttachGlass(s: State, b: nat): State
    requires AtB(s, b, ATTACH) && s.bs[b].order < |s.orders|
  {
    var x := s.bs[b];
    SetB(s, b, OnB(x)).(orders := s.orders[x.order := s.orders[x.order].(glass := x.glass)])
  }

  function PourDrink(s: State, b: nat): State
    requires AtB(s, b, POUR) && s.bs[b].order < |s.orders| && s.bs[b].glass < |s.glasses|
    requires IsDrink(s.orders[s.bs[b].order].ing) && |s.glasses[s.bs[b].glass].contents| == 3
  {
    var x := s.bs[b];
    var ing := s.orders[x.order].ing;
    SetB(s, b, OnB(x))
    .(glasses := s.glasses[x.glass := s.glasses[x.glass].(contents := PourInto(s.glasses[x.glass].contents, ing))],
      bottles := Doses(s.bottles, ing), poured := s.poured + Real(ing))
  }

  function ServeOrder(s: State, b: nat): State
    requires AtB(s, b, SERVE) && s.bs[b].order < |s.orders| && s.orders[s.bs[b].order].ordernumber < |s.orders|
  {
    var n := s.orders[s.bs[b].order].ordernumber;
    SetB(s, b, s.bs[b].(pc := LOOP))
    .(ordercomplete := s.ordercomplete[n := s.ordercomplete[n] + 1], uses := s.uses[n := Served(Placer(s.uses[n]))])
  }

  function StepB(s: State, b: nat): State
    requires CanB(s, b)
  {
    var pc := s.bs[b].pc;
    if pc == LOOP then LookAround(s, b)
    else if pc in {TAKE_WAIT, GLASS_WAIT} then WaitB(s, b)
    else if pc == TAKE then TakeOrder(s, b)
    else if pc == PICK then PickGlass(s, b)
    else if pc == ATTACH then AttachGlass(s, b)
    else if pc == POUR then PourDrink(s, b)
    else if pc == SERVE then ServeOrder(s, b)
    else LockB(s, b)
  }

  predicate Can(s: State, m: Move) {
    match m
    case CustomerMove(c, choice) => CanC(s, c, choice)
    case BartenderMove(b) => CanB(s, b)
  }

  function Step(s: State, m: Move): State
    requires Can(s, m)
  {
    match m
    case CustomerMove(c, choice) => StepC(s, c, choice)
    case BartenderMove(b) => StepB(s, b)
  }

  // ----- what holds at every point

  /** The customer has an order slot. */
  predicate Holding(x: Customer) { UNLOCK_PLACED <= x.pc <= RESET }

  /** It has placed its order but not yet announced it. */
  predicate Unannounced(x: Customer) { UNLOCK_PLACED <= x.pc <= ANNOUNCE }

  /** It has put its glass back but not yet said so. */
  predicate Refilling(x: Customer) { UNLOCK_GLASS <= x.pc <= REFILL }

  predicate LocksOrders(x: Customer) {
    PLACE <= x.pc <= UNLOCK_PLACED || GIVE <= x.pc <= UNLOCK_GIVEN || RESET <= x.pc <= UNLOCK_RESET
  }

  predicate LocksGlasses(x: Customer) { PUT_BACK <= x.pc <= UNLOCK_GLASS }

  predicate LocksDrinkers(x: Customer) { LEAVE <= x.pc <= UNLOCK_DRINKERS || x.last }

  /** It still counts as a drinker. */
  predicate Inside(x: Customer) { x.pc <= LEAVE && !x.last }

  /** The bartender has been promised an order and has not yet looked for it. */
  predicate Seeking(x: Bartender) { LOCK_TAKE <= x.pc <= TAKE }

  predicate SeekingGlass(x: Bartender) { LOCK_SHELF <= x.pc <= PICK }

  predicate BLocksOrders(x: Bartender) { TAKE <= x.pc <= UNLOCK_TAKE }

  predicate BLocksGlasses(x: Bartender) { PICK <= x.pc <= UNLOCK_SHELF }

  predicate BLocksBottles(x: Bartender) { POUR <= x.pc <= UNLOCK_BOTTLES }

  predicate InUse(u: Use) { !u.Unused? }

  /** The counts that make the semaphores mean what they should, and the locks exclusive. */
  predicate Counts(s: State) {
    && Count(s.orders, StateIs(1)) == s.ordersready + Count(s.cs, Unannounced) + Count(s.bs, Seeking)
    && Count(s.uses, InUse) == Count(s.cs, Holding)
    && Count(s.glasses, OnShelf()) == s.emptyglasses + Count(s.bs, SeekingGlass) + Count(s.cs, Refilling)
    && Count(s.cs, LocksOrders) + Count(s.bs, BLocksOrders) == One(s.orderslock)
    && Count(s.cs, LocksGlasses) + Count(s.bs, BLocksGlasses) == One(s.glasslock)
    && Count(s.bs, BLocksBottles) == One(s.bottleslock)
    && Count(s.cs, LocksDrinkers) == One(s.drinkerslock)
    && s.ndrinkers == Count(s.cs, Inside)
  }

  /** Slot `i` holds the order of customer `c`. */
  predicate OrderOf(s: State, i: nat, c: nat)
    requires i < |s.orders|
  {
    && c < |s.cs| && s.cs[c].slot == i && Holding(s.cs[c])
    && s.orders[i].ing == s.cs[c].ing && IsDrink(s.orders[i].ing) && s.orders[i].ordernumber == i
  }

  predicate SlotOk(s: State, i: nat)
    requires Sized(s) && i < |s.orders|
  {
    match s.uses[i]
    case Unused => s.orders[i].state == 0 && s.ordercomplete[i] == 0
    case Placed(c) => OrderOf(s, i, c) && s.orders[i].state == 1 && s.ordercomplete[i] == 0 && s.cs[c].pc <= AWAIT
    case Taken(c, b) =>
      && OrderOf(s, i, c) && s.orders[i].state == 2 && s.ordercomplete[i] == 0 && s.cs[c].pc <= AWAIT
      && b < |s.bs| && s.bs[b].order == i && UNLOCK_TAKE <= s.bs[b].pc <= SERVE
    case Served(c) =>
      && OrderOf(s, i, c) && s.orders[i].state == (if s.cs[c].pc > GIVE then 3 else 2)
      && s.ordercomplete[i] == One(s.cs[c].pc <= AWAIT)
      && (s.cs[c].pc <= PUT_BACK ==> ServedGlass(s, i, c))
  }

  /** The glass of a served order: full of what was ordered until it is drunk. */
  predicate ServedGlass(s: State, i: nat, c: nat)
    requires Sized(s) && i < |s.orders| && c < |s.cs|
  {
    var g := s.orders[i].glass;
    && g < |s.glasses| && s.glassuses[g] == For(i)
    && s.glasses[g].contents == if s.cs[c].pc <= DRINK then Poured(s.orders[i].ing) else Nothings(3)
  }

  predicate GlassOk(s: State, g: nat)
    requires Sized(s) && g < |s.glasses|
  {
    match s.glassuses[g]
    case Shelf => s.glasses[g].state == 0 && s.glasses[g].contents == Nothings(3)
    case For(i) =>
      && s.glasses[g].state == 1 && i < |s.orders|
      && match s.uses[i]
         case Taken(c, b) => b < |s.bs| && s.bs[b].glass == g && UNLOCK_SHELF <= s.bs[b].pc <= SERVE
         case Served(c) => c < |s.cs| && s.orders[i].glass == g && s.cs[c].pc <= PUT_BACK
         case _ => false
  }

  predicate CustomerOk(s: State, c: nat)
    requires Sized(s) && c < |s.cs|
  {
    var x := s.cs[c];
    && x.pc <= HOME
    && (Holding(x) ==> x.slot < |s.orders| && InUse(s.uses[x.slot]) && s.uses[x.slot].c == c)
    && (FETCH <= x.pc <= RESET ==> s.uses[x.slot].Served?)
    && (LABEL <= x.pc <= PUT_BACK ==> x.glass == s.orders[x.slot].glass)
    && (LOCK_GIVEN <= x.pc <= PUT_BACK ==> x.glass < |s.glasses| && s.glasses[x.glass].ordernumber == x.slot)
    && (UNLOCK_GLASS <= x.pc <= RESET ==> x.num == x.slot)
    && (LOCK_ORDERS <= x.pc <= PLACE ==> IsDrink(x.ing))
    && (x.last ==> s.ndrinkers == 0 && x.left <= |s.bs| && (LOCK_ORDERS <= x.pc <= UNLOCK_RESET || x.pc == CLOSE))
    && (x.last && x.pc != CLOSE ==> x.ing == Nothings(3))
    && (x.pc == CLOSE ==> x.last)
  }

  predicate BartenderOk(s: State, b: nat)
    requires Sized(s) && b < |s.bs|
  {
    var x := s.bs[b];
    && x.pc <= WENT_HOME
    && (UNLOCK_TAKE <= x.pc <= SERVE ==> x.order < |s.orders| && s.uses[x.order].Taken? && s.uses[x.order].b == b)
    && (UNLOCK_SHELF <= x.pc <= SERVE ==> x.glass < |s.glasses| && s.glassuses[x.glass] == For(x.order))
    && (LOCK_BOTTLES <= x.pc <= SERVE ==> s.orders[x.order].glass == x.glass)
    && (UNLOCK_SHELF <= x.pc <= POUR ==> s.glasses[x.glass].contents == Nothings(3))
    && (UNLOCK_BOTTLES <= x.pc <= SERVE ==> s.glasses[x.glass].contents == Poured(s.orders[x.order].ing))
  }

  /** Each bottle has served as many doses as were poured from it. */
  predicate DosesOk(s: State) {
    |s.bottles| == NBOTTLES && forall k: nat | k < NBOTTLES :: s.bottles[k] == multiset(s.poured)[k]
  }

  predicate Parts(s: State) {
    && Sized(s)
    && (forall i: nat | i < |s.orders| :: SlotOk(s, i))
    && (forall g: nat | g < |s.glasses| :: GlassOk(s, g))
    && (forall c: nat | c < |s.cs| :: CustomerOk(s, c))
    && (forall b: nat | b < |s.bs| :: BartenderOk(s, b))
  }

  predicate Inv(s: State) {
    Parts(s) && Counts(s) && DosesOk(s)
  }

  /** It holds when the bar opens. */
  lemma OpenInv(nc: nat, ng: nat, nb: nat)
    ensures Inv(Open(nc, ng, nb))
  {
    OpenCounts(Open(nc, ng, nb));
    OpenParts(nc, ng, nb);
  }

  lemma OpenParts(nc: nat, ng: nat, nb: nat)
    ensures Parts(Open(nc, ng, nb)) && DosesOk(Open(nc, ng, nb))
  {
  }

  lemma OpenCounts(s: State)
    requires (forall i: nat | i < |s.orders| :: s.orders[i].state == 0)
             && (forall i: nat | i < |s.uses| :: s.uses[i].Unused?)
    requires forall c: nat | c < |s.cs| :: s.cs[c].pc == WAIT && !s.cs[c].last
    requires forall b: nat | b < |s.bs| :: s.bs[b].pc == LOOP
    requires forall g: nat | g < |s.glasses| :: s.glasses[g].state == 0
    requires s.ordersready == 0 && s.emptyglasses == |s.glasses| && s.ndrinkers == |s.cs|
    requires !s.orderslock && !s.glasslock && !s.bottleslock && !s.drinkerslock
    ensures Counts(s)
  {
    hide Count;
    CountNone(s.orders, StateIs(1));
    CountNone(s.uses, InUse);
    CountNone(s.cs, Unannounced);
    CountNone(s.cs, Holding);
    CountNone(s.cs, Refilling);
    CountNone(s.cs, LocksOrders);
    CountNone(s.cs, LocksGlasses);
    CountNone(s.cs, LocksDrinkers);
    CountNone(s.bs, Seeking);
    CountNone(s.bs, SeekingGlass);
    CountNone(s.bs, BLocksOrders);
    CountNone(s.bs, BLocksGlasses);
    CountNone(s.bs, BLocksBottles);
    CountAll(s.glasses, OnShelf());
    CountAll(s.cs, Inside);
  }

  lemma {:induction false} CountAll<T>(s: seq<T>, p: T -> bool)
    requires forall i: nat | i < |s| :: p(s[i])
    ensures Count(s, p) == |s|
    decreases |s|
  {
    if s != [] {
      CountAll(s[..|s| - 1], p);
    }
  }

  // ----- steps that move one thread and nothing that others look at

  /** From outside, the two states of a customer look the same. */
  predicate SameStation(x: Customer, y: Customer) {
    && (Holding(x) <==> Holding(y))
    && (Holding(x) ==>
          && y.slot == x.slot && y.ing == x.ing
          && (x.pc <= AWAIT <==> y.pc <= AWAIT) && (x.pc <= GIVE <==> y.pc <= GIVE)
          && (x.pc <= DRINK <==> y.pc <= DRINK) && (x.pc <= PUT_BACK <==> y.pc <= PUT_BACK))
  }

  /** Nothing but the customers, the semaphores, the locks and the number of drinkers has changed. */
  predicate SameTables(s: State, t: State) {
    && t.orders == s.orders && t.glasses == s.glasses && t.bottles == s.bottles && t.ordercomplete == s.ordercomplete
    && t.uses == s.uses && t.glassuses == s.glassuses && t.poured == s.poured
  }

  lemma CustomerMoves(s: State, t: State, c: nat)
    requires Parts(s) && c < |s.cs| && SameTables(s, t) && t.bs == s.bs
    requires |t.cs| == |s.cs| && t.cs == s.cs[c := t.cs[c]] && SameStation(s.cs[c], t.cs[c])
    requires CustomerOk(t, c) && forall d: nat | d < |s.cs| && d != c && s.cs[d].last :: t.ndrinkers == 0
    ensures Parts(t)
  {
    hide Real, Nothings;
    forall i: nat | i < |t.orders|
      ensures SlotOk(t, i)
    {
      assert SlotOk(s, i);
    }
    forall g: nat | g < |t.glasses|
      ensures GlassOk(t, g)
    {
      assert GlassOk(s, g);
      assert s.glassuses[g].For? ==> SlotOk(s, s.glassuses[g].order);
    }
    forall d: nat | d < |t.cs|
      ensures CustomerOk(t, d)
    {
      assert CustomerOk(s, d);
    }
    forall b: nat | b < |t.bs|
      ensures BartenderOk(t, b)
    {
      assert BartenderOk(s, b);
    }
  }

  /** The counts of customers that a change of one of them moves. */
  lemma CountC(s: State, c: nat, x: Customer)
    requires c < |s.cs|
    ensures var cs := s.cs[c := x];
            && Count(cs, Unannounced) == Count(s.cs, Unannounced) - One(Unannounced(s.cs[c])) + One(Unannounced(x))
            && Count(cs, Holding) == Count(s.cs, Holding) - One(Holding(s.cs[c])) + One(Holding(x))
            && Count(cs, Refilling) == Count(s.cs, Refilling) - One(Refilling(s.cs[c])) + One(Refilling(x))
            && Count(cs, LocksOrders) == Count(s.cs, LocksOrders) - One(LocksOrders(s.cs[c])) + One(LocksOrders(x))
            && Count(cs, LocksGlasses) == Count(s.cs, LocksGlasses) - One(LocksGlasses(s.cs[c])) + One(LocksGlasses(x))
            && Count(cs, LocksDrinkers) == Count(s.cs, LocksDrinkers) - One(LocksDrinkers(s.cs[c]))
                + One(LocksDrinkers(x))
            && Count(cs, Inside) == Count(s.cs, Inside) - One(Inside(s.cs[c])) + One(Inside(x))
  {
    CountUpdate(s.cs, c, x, Unannounced);
    CountUpdate(s.cs, c, x, Holding);
    CountUpdate(s.cs, c, x, Refilling);
    CountUpdate(s.cs, c, x, LocksOrders);
    CountUpdate(s.cs, c, x, LocksGlasses);
    CountUpdate(s.cs, c, x, LocksDrinkers);
    CountUpdate(s.cs, c, x, Inside);
  }

  lemma CountB(s: State, b: nat, x: Bartender)
    requires b < |s.bs|
    ensures var bs := s.bs[b := x];
            && Count(bs, Seeking) == Count(s.bs, Seeking) - One(Seeking(s.bs[b])) + One(Seeking(x))
            && Count(bs, SeekingGlass) == Count(s.bs, SeekingGlass) - One(SeekingGlass(s.bs[b])) + One(SeekingGlass(x))
            && Count(bs, BLocksOrders) == Count(s.bs, BLocksOrders) - One(BLocksOrders(s.bs[b])) + One(BLocksOrders(x))
            && Count(bs, BLocksGlasses) == Count(s.bs, BLocksGlasses) - One(BLocksGlasses(s.bs[b]))
                + One(BLocksGlasses(x))
            && Count(bs, BLocksBottles) == Count(s.bs, BLocksBottles) - One(BLocksBottles(s.bs[b]))
                + One(BLocksBottles(x))
  {
    CountUpdate(s.bs, b, x, Seeking);
    CountUpdate(s.bs, b, x, SeekingGlass);
    CountUpdate(s.bs, b, x, BLocksOrders);
    CountUpdate(s.bs, b, x, BLocksGlasses);
    CountUpdate(s.bs, b, x, BLocksBottles);
  }

  /** A step of customer `c` that touches no table, counted by the counts that it moves. */
  lemma PlainStep(s: State, t: State, c: nat)
    requires Inv(s) && c < |s.cs| && SameTables(s, t) && t.bs == s.bs && t.ndrinkers == s.ndrinkers
    requires |t.cs| == |s.cs| && t.cs == s.cs[c := t.cs[c]] && SameStation(s.cs[c], t.cs[c])
    requires CustomerOk(t, c) && Counts(t)
    ensures Inv(t)
  {
    hide Count, Real, Nothings, Counts, CustomerOk, Parts;
    LastMeansEmpty(s, t, c);
    CustomerMoves(s, t, c);
  }

  lemma CustomerAt(s: State, c: nat)
    requires Parts(s) && c < |s.cs|
    ensures Sized(s) && CustomerOk(s, c)
  {
  }

  lemma LastMeansEmpty(s: State, t: State, c: nat)
    requires Parts(s) && t.ndrinkers == s.ndrinkers && |t.cs| == |s.cs|
    ensures forall d: nat | d < |s.cs| && d != c && s.cs[d].last :: t.ndrinkers == 0
  {
    forall d: nat | d < |s.cs| && d != c && s.cs[d].last
      ensures t.ndrinkers == 0
    {
      assert CustomerOk(s, d);
    }
  }

  lemma ChooseKeeps(s: State, c: nat, choice: Choice)
    requires Inv(s) && CanC(s, c, choice) && s.cs[c].pc in {WAIT, CLOSE}
    ensures Inv(Choose(s, c, choice))
  {
    hide Count, Real, Parts;
    var t := Choose(s, c, choice);
    CustomerAt(s, c);
    CountC(s, c, t.cs[c]);
    PlainStep(s, t, c);
  }

  lemma OrdersLockKeeps(s: State, c: nat, choice: Choice)
    requires Inv(s) && CanC(s, c, choice)
    requires s.cs[c].pc in {LOCK_ORDERS, LOCK_GIVEN, LOCK_RESET, UNLOCK_PLACED, UNLOCK_GIVEN, UNLOCK_RESET}
    ensures Inv(OrdersLock(s, c))
  {
    hide Count, Real, Parts, Nothings;
    var t := OrdersLock(s, c);
    CustomerAt(s, c);
    CountC(s, c, t.cs[c]);
    PlainStep(s, t, c);
  }

  lemma OtherLockKeeps(s: State, c: nat, choice: Choice)
    requires Inv(s) && CanC(s, c, choice)
    requires s.cs[c].pc in {LOCK_GLASS, UNLOCK_GLASS, LOCK_DRINKERS, UNLOCK_DRINKERS}
    ensures Inv(OtherLock(s, c))
  {
    hide Count, Real, Parts, Nothings;
    var t := OtherLock(s, c);
    CustomerAt(s, c);
    CountC(s, c, t.cs[c]);
    PlainStep(s, t, c);
  }

  lemma SignalKeeps(s: State, c: nat, choice: Choice)
    requires Inv(s) && CanC(s, c, choice) && s.cs[c].pc in {ANNOUNCE, REFILL}
    ensures Inv(Signal(s, c))
  {
    hide Count, Real, Parts, Nothings;
    var t := Signal(s, c);
    CustomerAt(s, c);
    CountC(s, c, t.cs[c]);
    PlainStep(s, t, c);
  }

  // ----- steps that change a table: only what is near slot `i` and glass `g` is concerned

  /** From `s` to `t` nothing has changed but slot `i`, glass `g`, customer `c` and bartender `b`. */
  predicate ChangesNear(s: State, t: State, i: nat, g: nat, c: nat, b: nat) {
    && Sized(s) && Sized(t) && |t.orders| == |s.orders| && |t.glasses| == |s.glasses| && |t.bs| == |s.bs|
    && t.ndrinkers == s.ndrinkers
    && (forall j: nat | j < |s.orders| && j != i ::
          t.orders[j] == s.orders[j] && t.uses[j] == s.uses[j] && t.ordercomplete[j] == s.ordercomplete[j])
    && (forall h: nat | h < |s.glasses| && h != g :: t.glasses[h] == s.glasses[h] && t.glassuses[h] == s.glassuses[h])
    && (forall d: nat | d < |s.cs| && d != c :: t.cs[d] == s.cs[d])
    && (forall a: nat | a < |s.bs| && a != b :: t.bs[a] == s.bs[a])
  }

  /** Slot, glass, customer and bartender have to do with each other and with nobody else. */
  predicate Apart(s: State, i: nat, g: nat, c: nat, b: nat) {
    && Sized(s)
    && (i < |s.orders| && InUse(s.uses[i]) ==> s.uses[i].c == c)
    && (i < |s.orders| && s.uses[i].Taken? ==> s.uses[i].b == b)
    && (c < |s.cs| && Holding(s.cs[c]) ==> s.cs[c].slot == i)
    && (b < |s.bs| && UNLOCK_TAKE <= s.bs[b].pc <= SERVE ==> s.bs[b].order == i)
    && (g < |s.glasses| && s.glassuses[g].For? ==> s.glassuses[g].order == i)
    && (forall h: nat | h < |s.glasses| && h != g :: s.glassuses[h] != For(i))
  }

  lemma OthersKept(s: State, t: State, i: nat, g: nat, c: nat, b: nat)
    requires Parts(s) && ChangesNear(s, t, i, g, c, b) && Apart(s, i, g, c, b)
    ensures forall j: nat | j < |t.orders| && j != i :: SlotOk(t, j)
    ensures forall h: nat | h < |t.glasses| && h != g :: GlassOk(t, h)
    ensures forall d: nat | d < |t.cs| && d != c :: CustomerOk(t, d)
    ensures forall a: nat | a < |t.bs| && a != b :: BartenderOk(t, a)
  {
    hide Real, Nothings;
    forall j: nat | j < |t.orders| && j != i
      ensures SlotOk(t, j)
    {
      assert SlotOk(s, j);
    }
    forall h: nat | h < |t.glasses| && h != g
      ensures GlassOk(t, h)
    {
      assert GlassOk(s, h);
      assert s.glassuses[h].For? ==> SlotOk(s, s.glassuses[h].order);
    }
    forall d: nat | d < |t.cs| && d != c
      ensures CustomerOk(t, d)
    {
      assert CustomerOk(s, d);
      assert Holding(s.cs[d]) ==> SlotOk(s, s.cs[d].slot);
    }
    forall a: nat | a < |t.bs| && a != b
      ensures BartenderOk(t, a)
    {
      assert BartenderOk(s, a);
    }
  }

  /** It is enough to look at what is near. */
  lemma NearbyIsEnough(s: State, t: State, i: nat, g: nat, c: nat, b: nat)
    requires Parts(s) && ChangesNear(s, t, i, g, c, b) && Apart(s, i, g, c, b)
    requires i < |t.orders| ==> SlotOk(t, i)
    requires g < |t.glasses| ==> GlassOk(t, g)
    requires c < |t.cs| ==> CustomerOk(t, c)
    requires b < |t.bs| ==> BartenderOk(t, b)
    ensures Parts(t)
  {
    hide SlotOk, GlassOk, CustomerOk, BartenderOk;
    OthersKept(s, t, i, g, c, b);
  }

  /** What a served customer has, and that it is apart from all others. */
  lemma ServedApart(s: State, c: nat)
    requires Parts(s) && c < |s.cs| && AWAIT <= s.cs[c].pc <= RESET
    requires s.cs[c].pc == AWAIT ==> s.cs[c].slot < |s.orders| && s.ordercomplete[s.cs[c].slot] > 0
    ensures var x := s.cs[c];
            && x.slot < |s.orders| && s.uses[x.slot] == Served(c) && SlotOk(s, x.slot) && CustomerOk(s, c)
            && (x.pc <= PUT_BACK ==> s.orders[x.slot].glass < |s.glasses| && GlassOk(s, s.orders[x.slot].glass))
            && Apart(s, x.slot, if x.pc <= PUT_BACK then s.orders[x.slot].glass else |s.glasses|, c, |s.bs|)
  {
    assert CustomerOk(s, c) && SlotOk(s, s.cs[c].slot);
    var i := s.cs[c].slot;
    forall h: nat | h < |s.glasses| && s.glassuses[h] == For(i)
      ensures s.cs[c].pc <= PUT_BACK && h == s.orders[i].glass
    {
      assert GlassOk(s, h);
    }
  }

  // ----- the steps of a customer that change a table

  /** A free slot is found, because this customer has none. */
  lemma PlaceFinds(s: State, c: nat)
    requires Inv(s) && AtC(s, c, PLACE)
    ensures First(s.orders, StateIs(0)) < |s.orders| && s.uses[First(s.orders, StateIs(0))].Unused?
  {
    CountNotHolding(s, c);
    var i := CountNotAll(s.uses, InUse);
    assert SlotOk(s, i);
    assert SlotOk(s, First(s.orders, StateIs(0)));
  }

  lemma CountNotHolding(s: State, c: nat)
    requires Counts(s) && AtC(s, c, PLACE)
    ensures Count(s.uses, InUse) < |s.uses|
  {
    if Count(s.cs, Holding) == |s.cs| {
      var x := s.cs[c];
      CountUpdate(s.cs, c, x.(pc := AWAIT), Holding);
    }
  }

  /** A free slot has nothing to do with anybody. */
  lemma FreeApart(s: State, c: nat, i: nat)
    requires Parts(s) && AtC(s, c, PLACE) && i < |s.orders| && s.uses[i].Unused?
    ensures Apart(s, i, |s.glasses|, c, |s.bs|) && SlotOk(s, i) && CustomerOk(s, c)
  {
    forall h: nat | h < |s.glasses|
      ensures s.glassuses[h] != For(i)
    {
      assert GlassOk(s, h);
    }
  }

  lemma PlaceKeeps(s: State, c: nat)
    requires Inv(s) && AtC(s, c, PLACE)
    ensures Inv(PlaceOrder(s, c))
  {
    hide Count, Real, Nothings, Parts;
    var t, i := PlaceOrder(s, c), First(s.orders, StateIs(0));
    PlaceFinds(s, c);
    CountC(s, c, t.cs[c]);
    CountUpdate(s.orders, i, t.orders[i], StateIs(1));
    CountUpdate(s.uses, i, t.uses[i], InUse);
    FreeApart(s, c, i);
    NearbyIsEnough(s, t, i, |s.glasses|, c, |s.bs|);
  }

  /** The P on ordercomplete succeeds only when the order was served. */
  lemma AwaitKeeps(s: State, c: nat)
    requires Inv(s) && AtC(s, c, AWAIT) && CanC(s, c, GoHome)
    ensures Inv(AwaitDrink(s, c))
  {
    hide Count, Real, Nothings, Parts;
    var t, i := AwaitDrink(s, c), s.cs[c].slot;
    CountC(s, c, t.cs[c]);
    ServedApart(s, c);
    NearbyIsEnough(s, t, i, s.orders[i].glass, c, |s.bs|);
  }

  lemma FetchKeeps(s: State, c: nat)
    requires Inv(s) && AtC(s, c, FETCH) && CanC(s, c, GoHome)
    ensures Inv(FetchGlass(s, c))
  {
    hide Count, Real, Nothings, Parts;
    var t, i := FetchGlass(s, c), s.cs[c].slot;
    CountC(s, c, t.cs[c]);
    ServedApart(s, c);
    NearbyIsEnough(s, t, i, s.orders[i].glass, c, |s.bs|);
  }

  lemma LabelKeeps(s: State, c: nat)
    requires Inv(s) && AtC(s, c, LABEL) && CanC(s, c, GoHome)
    ensures Inv(LabelGlass(s, c))
  {
    hide Count, Real, Nothings, Parts;
    var t, g := LabelGlass(s, c), s.cs[c].glass;
    CountC(s, c, t.cs[c]);
    ServedApart(s, c);
    CountUpdate(s.glasses, g, t.glasses[g], OnShelf());
    NearbyIsEnough(s, t, s.cs[c].slot, g, c, |s.bs|);
  }

  /** State 3: the order is with the customer. */
  lemma GiveKeeps(s: State, c: nat)
    requires Inv(s) && AtC(s, c, GIVE) && CanC(s, c, GoHome)
    ensures Inv(GiveDrink(s, c))
  {
    hide Count, Real, Nothings, Parts;
    var t, i := GiveDrink(s, c), s.cs[c].slot;
    CountC(s, c, t.cs[c]);
    ServedApart(s, c);
    CountUpdate(s.orders, i, t.orders[i], StateIs(1));
    NearbyIsEnough(s, t, i, s.orders[i].glass, c, |s.bs|);
  }

  /** A closing order makes an empty drink. */
  lemma PouredNothing()
    ensures Poured(Nothings(3)) == Nothings(3)
  {
    assert Nothings(3) == [NOTHING, NOTHING, NOTHING];
    ThreeOf(Nothings(1), NOTHING, NOTHING, NOTHING);
  }

  lemma DrinkNear(s: State, c: nat)
    requires Parts(s) && AtC(s, c, DRINK) && CanC(s, c, GoHome)
    requires var i := s.cs[c].slot;
             i < |s.orders| && s.uses[i] == Served(c) && SlotOk(s, i) && CustomerOk(s, c) && GlassOk(s, s.cs[c].glass)
    ensures var t := DrinkUp(s, c);
            && Sized(t) && |t.glasses| == |s.glasses| && |t.orders| == |s.orders| && |t.cs| == |s.cs|
            && SlotOk(t, s.cs[c].slot) && GlassOk(t, s.cs[c].glass) && CustomerOk(t, c)
  {
    hide Real, Nothings, Poured;
    PouredNothing();
  }

  lemma DrinkCounts(s: State, c: nat)
    requires Counts(s) && AtC(s, c, DRINK) && s.cs[c].glass < |s.glasses|
    ensures Counts(DrinkUp(s, c))
  {
    hide Count, Nothings;
    var t, g := DrinkUp(s, c), s.cs[c].glass;
    CountC(s, c, t.cs[c]);
    CountUpdate(s.glasses, g, t.glasses[g], OnShelf());
    assert t.glasses == s.glasses[g := t.glasses[g]];
  }

  lemma DrinkKeeps(s: State, c: nat)
    requires Inv(s) && AtC(s, c, DRINK) && CanC(s, c, GoHome)
    ensures Inv(DrinkUp(s, c))
  {
    hide Counts, Real, Nothings, Parts, Poured, SlotOk, GlassOk, CustomerOk;
    var t, g := DrinkUp(s, c), s.cs[c].glass;
    ServedApart(s, c);
    SameGlass(s, c);
    DrinkNear(s, c);
    DrinkCounts(s, c);
    NearbyIsEnough(s, t, s.cs[c].slot, g, c, |s.bs|);
  }

  lemma SameGlass(s: State, c: nat)
    requires Parts(s) && AtC(s, c, DRINK)
    ensures s.cs[c].slot < |s.orders| && s.cs[c].glass == s.orders[s.cs[c].slot].glass
  {
    assert CustomerOk(s, c);
  }

  lemma PutBackKeeps(s: State, c: nat)
    requires Inv(s) && AtC(s, c, PUT_BACK) && CanC(s, c, GoHome)
    ensures Inv(PutGlassBack(s, c))
  {
    hide Count, Real, Nothings, Parts;
    var t, g := PutGlassBack(s, c), s.cs[c].glass;
    CountC(s, c, t.cs[c]);
    ServedApart(s, c);
    CountUpdate(s.glasses, g, t.glasses[g], OnShelf());
    NearbyIsEnough(s, t, s.cs[c].slot, g, c, |s.bs|);
  }

  lemma ResetKeeps(s: State, c: nat)
    requires Inv(s) && AtC(s, c, RESET) && CanC(s, c, GoHome)
    ensures Inv(ResetOrder(s, c))
  {
    hide Count, Real, Nothings, Parts;
    var t, i := ResetOrder(s, c), s.cs[c].slot;
    CountC(s, c, t.cs[c]);
    ServedApart(s, c);
    CountUpdate(s.orders, i, t.orders[i], StateIs(1));
    CountUpdate(s.uses, i, t.uses[i], InUse);
    NearbyIsEnough(s, t, i, |s.glasses|, c, |s.bs|);
  }

  /** Nobody else is the last customer while this one holds ndrinkerslock. */
  lemma NobodyElseLast(s: State, c: nat)
    requires Counts(s) && AtC(s, c, LEAVE)
    ensures forall d: nat | d < |s.cs| && d != c :: !s.cs[d].last
  {
    hide Count;
    forall d: nat | d < |s.cs| && d != c
      ensures !s.cs[d].last
    {
      if s.cs[d].last {
        CountTwo(s.cs, c, d, LocksDrinkers);
      }
    }
  }

  /** The last customer to leave becomes the one who places the closing orders. */
  lemma LeaveKeeps(s: State, c: nat)
    requires Inv(s) && AtC(s, c, LEAVE)
    ensures Inv(LeaveBar(s, c))
  {
    hide Count, Real, Nothings, Parts;
    var t := LeaveBar(s, c);
    NobodyElseLast(s, c);
    CustomerAt(s, c);
    CountC(s, c, t.cs[c]);
    CustomerMoves(s, t, c);
  }

  // ----- the steps of a bartender

  /** From outside, the two states of a bartender look the same. */
  predicate SameStand(x: Bartender, y: Bartender) {
    && (UNLOCK_TAKE <= x.pc <= SERVE <==> UNLOCK_TAKE <= y.pc <= SERVE)
    && (UNLOCK_SHELF <= x.pc <= SERVE <==> UNLOCK_SHELF <= y.pc <= SERVE)
    && (LOCK_BOTTLES <= x.pc <= SERVE <==> LOCK_BOTTLES <= y.pc <= SERVE)
    && (UNLOCK_BOTTLES <= x.pc <= SERVE <==> UNLOCK_BOTTLES <= y.pc <= SERVE)
    && x.order == y.order && x.glass == y.glass && y.pc <= WENT_HOME
  }

  lemma BartenderMoves(s: State, t: State, b: nat)
    requires Parts(s) && b < |s.bs| && SameTables(s, t) && t.cs == s.cs && t.ndrinkers == s.ndrinkers
    requires |t.bs| == |s.bs| && t.bs == s.bs[b := t.bs[b]] && SameStand(s.bs[b], t.bs[b])
    ensures Parts(t)
  {
    hide Real, Nothings;
    forall i: nat | i < |t.orders|
      ensures SlotOk(t, i)
    {
      assert SlotOk(s, i);
    }
    forall g: nat | g < |t.glasses|
      ensures GlassOk(t, g)
    {
      assert GlassOk(s, g);
    }
    forall c: nat | c < |t.cs|
      ensures CustomerOk(t, c)
    {
      assert CustomerOk(s, c);
    }
    forall a: nat | a < |t.bs|
      ensures BartenderOk(t, a)
    {
      assert BartenderOk(s, a);
    }
  }

  lemma BartenderAt(s: State, b: nat)
    requires Parts(s) && b < |s.bs|
    ensures Sized(s) && BartenderOk(s, b)
  {
  }

  lemma LookAroundKeeps(s: State, b: nat)
    requires Inv(s) && AtB(s, b, LOOP)
    ensures Inv(LookAround(s, b))
  {
    hide Count, Real, Nothings, Parts;
    CountB(s, b, LookAround(s, b).bs[b]);
    BartenderMoves(s, LookAround(s, b), b);
  }

  lemma WaitBKeeps(s: State, b: nat)
    requires Inv(s) && CanB(s, b) && s.bs[b].pc in {TAKE_WAIT, GLASS_WAIT}
    ensures Inv(WaitB(s, b))
  {
    hide Count, Real, Nothings, Parts;
    CountB(s, b, WaitB(s, b).bs[b]);
    BartenderMoves(s, WaitB(s, b), b);
  }

  lemma LockBKeeps(s: State, b: nat)
    requires Inv(s) && CanB(s, b)
    requires s.bs[b].pc in {LOCK_TAKE, UNLOCK_TAKE, LOCK_SHELF, UNLOCK_SHELF, LOCK_BOTTLES, UNLOCK_BOTTLES}
    ensures Inv(LockB(s, b))
  {
    hide Count, Real, Nothings, Parts;
    BartenderAt(s, b);
    CountB(s, b, LockB(s, b).bs[b]);
    BartenderMoves(s, LockB(s, b), b);
  }

  /** There is always an order in state 1 for a bartender that got past the P. */
  lemma TakeFinds(s: State, b: nat)
    requires Inv(s) && AtB(s, b, TAKE)
    ensures First(s.orders, StateIs(1)) < |s.orders| && s.uses[First(s.orders, StateIs(1))].Placed?
  {
    CountUpdate(s.bs, b, s.bs[b], Seeking);
    var i := CountSome(s.orders, StateIs(1));
    assert SlotOk(s, First(s.orders, StateIs(1)));
  }

  /** A placed order has to do with its customer and with nobody else. */
  lemma PlacedApart(s: State, b: nat, i: nat)
    requires Parts(s) && AtB(s, b, TAKE) && i < |s.orders| && s.uses[i].Placed?
    ensures Apart(s, i, |s.glasses|, s.uses[i].c, b) && SlotOk(s, i) && BartenderOk(s, b)
    ensures s.uses[i].c < |s.cs| && CustomerOk(s, s.uses[i].c)
  {
    assert SlotOk(s, i);
    forall h: nat | h < |s.glasses|
      ensures s.glassuses[h] != For(i)
    {
      assert GlassOk(s, h);
    }
  }

  /** An order that bartender `b` works on has to do with its customer and that bartender alone. */
  lemma TakenApart(s: State, b: nat)
    requires Parts(s) && b < |s.bs| && UNLOCK_TAKE <= s.bs[b].pc <= SERVE
    ensures var i := s.bs[b].order;
            && i < |s.orders| && s.uses[i].Taken? && s.uses[i].b == b && SlotOk(s, i) && BartenderOk(s, b)
            && s.uses[i].c < |s.cs| && CustomerOk(s, s.uses[i].c)
            && (s.bs[b].pc >= UNLOCK_SHELF ==> s.bs[b].glass < |s.glasses| && GlassOk(s, s.bs[b].glass)
                                               && Apart(s, i, s.bs[b].glass, s.uses[i].c, b))
            && (s.bs[b].pc < UNLOCK_SHELF ==> forall h: nat | h < |s.glasses| :: s.glassuses[h] != For(i))
  {
    assert BartenderOk(s, b) && SlotOk(s, s.bs[b].order);
    var i := s.bs[b].order;
    forall h: nat | h < |s.glasses| && s.glassuses[h] == For(i)
      ensures s.bs[b].pc >= UNLOCK_SHELF && h == s.bs[b].glass
    {
      assert GlassOk(s, h);
    }
  }

  lemma TakeKeeps(s: State, b: nat)
    requires Inv(s) && AtB(s, b, TAKE)
    ensures Inv(TakeOrder(s, b))
  {
    hide Count, Real, Nothings, Parts;
    var t, i := TakeOrder(s, b), First(s.orders, StateIs(1));
    TakeFinds(s, b);
    CountB(s, b, t.bs[b]);
    CountUpdate(s.orders, i, t.orders[i], StateIs(1));
    CountUpdate(s.uses, i, t.uses[i], InUse);
    PlacedApart(s, b, i);
    NearbyIsEnough(s, t, i, |s.glasses|, s.uses[i].c, b);
  }

  /** There is always a glass on the shelf for a bartender that got past the P. */
  lemma PickFinds(s: State, b: nat)
    requires Inv(s) && AtB(s, b, PICK)
    ensures var g := First(s.glasses, OnShelf()); g < |s.glasses| && s.glassuses[g].Shelf? && GlassOk(s, g)
  {
    CountUpdate(s.bs, b, s.bs[b], SeekingGlass);
    var g := CountSome(s.glasses, OnShelf());
    assert GlassOk(s, First(s.glasses, OnShelf()));
  }

  lemma PickKeeps(s: State, b: nat)
    requires Inv(s) && AtB(s, b, PICK)
    ensures Inv(PickGlass(s, b))
  {
    hide Count, Real, Nothings, Parts;
    var t, g, i := PickGlass(s, b), First(s.glasses, OnShelf()), s.bs[b].order;
    PickFinds(s, b);
    CountB(s, b, t.bs[b]);
    CountUpdate(s.glasses, g, t.glasses[g], OnShelf());
    TakenApart(s, b);
    NearbyIsEnough(s, t, i, g, s.uses[i].c, b);
  }

  lemma AttachKeeps(s: State, b: nat)
    requires Inv(s) && AtB(s, b, ATTACH) && CanB(s, b)
    ensures Inv(AttachGlass(s, b))
  {
    hide Count, Real, Nothings, Parts;
    var t, i := AttachGlass(s, b), s.bs[b].order;
    CountB(s, b, t.bs[b]);
    CountUpdate(s.orders, i, t.orders[i], StateIs(1));
    TakenApart(s, b);
    NearbyIsEnough(s, t, i, s.bs[b].glass, s.uses[i].c, b);
  }

  lemma PourKeeps(s: State, b: nat)
    requires Inv(s) && AtB(s, b, POUR) && CanB(s, b)
    ensures Inv(PourDrink(s, b))
  {
    hide Count, Real, Nothings, Parts, Poured, PourInto;
    var t, i, g := PourDrink(s, b), s.bs[b].order, s.bs[b].glass;
    CountB(s, b, t.bs[b]);
    CountUpdate(s.glasses, g, t.glasses[g], OnShelf());
    TakenApart(s, b);
    PouredIntoEmpty(s.orders[i].ing);
    NearbyIsEnough(s, t, i, g, s.uses[i].c, b);
    PourCounts(s, s.orders[i].ing);
  }

  /** Each bottle counts what is poured from it. */
  lemma PourCounts(s: State, ing: seq<nat>)
    requires DosesOk(s) && IsDrink(ing)
    ensures DosesOk(s.(bottles := Doses(s.bottles, ing), poured := s.poured + Real(ing)))
  {
    forall k: nat | k < NBOTTLES
      ensures Doses(s.bottles, ing)[k] == multiset(s.poured + Real(ing))[k]
    {
      DosesCount(s.bottles, ing, k);
    }
  }

  lemma ServeKeeps(s: State, b: nat)
    requires Inv(s) && AtB(s, b, SERVE) && CanB(s, b)
    ensures Inv(ServeOrder(s, b))
  {
    hide Count, Real, Nothings, Parts;
    var t, i := ServeOrder(s, b), s.bs[b].order;
    CountB(s, b, t.bs[b]);
    TakenApart(s, b);
    CountUpdate(s.uses, i, t.uses[i], InUse);
    NearbyIsEnough(s, t, i, s.bs[b].glass, s.uses[i].c, b);
  }

  // ----- every run

  lemma CustomerStepKeeps(s: State, c: nat, choice: Choice)
    requires Inv(s) && CanC(s, c, choice)
    ensures Inv(StepC(s, c, choice))
  {
    hide Inv;
    var pc := s.cs[c].pc;
    if pc in {WAIT, CLOSE} {
      ChooseKeeps(s, c, choice);
    } else if pc == PLACE {
      PlaceKeeps(s, c);
    } else if pc in {ANNOUNCE, REFILL} {
      SignalKeeps(s, c, choice);
    } else if pc == AWAIT {
      AwaitKeeps(s, c);
    } else if pc == FETCH {
      FetchKeeps(s, c);
    } else if pc == LABEL {
      LabelKeeps(s, c);
    } else if pc == GIVE {
      GiveKeeps(s, c);
    } else if pc == DRINK {
      DrinkKeeps(s, c);
    } else if pc == PUT_BACK {
      PutBackKeeps(s, c);
    } else if pc == RESET {
      ResetKeeps(s, c);
    } else if pc == LEAVE {
      LeaveKeeps(s, c);
    } else if pc in {LOCK_GLASS, UNLOCK_GLASS, LOCK_DRINKERS, UNLOCK_DRINKERS} {
      OtherLockKeeps(s, c, choice);
    } else {
      OrdersLockKeeps(s, c, choice);
    }
  }

  lemma BartenderStepKeeps(s: State, b: nat)
    requires Inv(s) && CanB(s, b)
    ensures Inv(StepB(s, b))
  {
    hide Inv;
    var pc := s.bs[b].pc;
    if pc == LOOP {
      LookAroundKeeps(s, b);
    } else if pc in {TAKE_WAIT, GLASS_WAIT} {
      WaitBKeeps(s, b);
    } else if pc == TAKE {
      TakeKeeps(s, b);
    } else if pc == PICK {
      PickKeeps(s, b);
    } else if pc == ATTACH {
      AttachKeeps(s, b);
    } else if pc == POUR {
      PourKeeps(s, b);
    } else if pc == SERVE {
      ServeKeeps(s, b);
    } else {
      LockBKeeps(s, b);
    }
  }

  /** A run: the bar opens, and then any thread that can take a step takes it. */
  ghost predicate Run(trace: seq<State>, moves: seq<Move>, nc: nat, ng: nat, nb: nat) {
    && |trace| == |moves| + 1 && trace[0] == Open(nc, ng, nb)
    && forall k: nat | k < |moves| :: Can(trace[k], moves[k]) && trace[k + 1] == Step(trace[k], moves[k])
  }

  /** Whatever the numbers of customers, glasses and bartenders, it holds at every point of every run. */
  lemma {:induction false} RunKeepsInv(trace: seq<State>, moves: seq<Move>, nc: nat, ng: nat, nb: nat, k: nat)
    requires Run(trace, moves, nc, ng, nb) && k <= |moves|
    ensures Inv(trace[k])
  {
    hide Inv, Can, Step;
    if k == 0 {
      OpenInv(nc, ng, nb);
    } else {
      RunKeepsInv(trace, moves, nc, ng, nb, k - 1);
      assert trace[k] == Step(trace[k - 1], moves[k - 1]);
      MoveKeeps(trace[k - 1], moves[k - 1]);
    }
  }

  lemma MoveKeeps(s: State, m: Move)
    requires Inv(s) && Can(s, m)
    ensures Inv(Step(s, m))
  {
    hide Inv;
    match m {
      case CustomerMove(c, choice) => CustomerStepKeeps(s, c, choice);
      case BartenderMove(b) => BartenderStepKeeps(s, b);
    }
  }

  // ----- what that means

  /**
   * The panic in take_order is never reached, every submit_order finds a slot, every fill_order finds a glass,
   * and no index leaves its array: a thread that is not at the end waits for a lock or a semaphore or can go on.
   */
  lemma NothingGoesWrong(s: State)
    requires Inv(s)
    ensures forall b: nat | b < |s.bs| :: s.bs[b].pc != PANIC && s.bs[b].pc != NO_GLASS
    ensures forall c: nat | c < |s.cs| :: s.cs[c].pc != NO_SLOT
    ensures forall b: nat | b < |s.bs| && s.bs[b].pc !in
                            {TAKE_WAIT, GLASS_WAIT, LOCK_TAKE, LOCK_SHELF, LOCK_BOTTLES, WENT_HOME} ::
              CanB(s, b)
    ensures forall c: nat | c < |s.cs| && s.cs[c].pc !in
                            {AWAIT, LOCK_ORDERS, LOCK_GIVEN, LOCK_RESET, LOCK_GLASS, LOCK_DRINKERS, HOME} ::
              CanC(s, c, GoHome)
  {
    forall b: nat | b < |s.bs|
      ensures s.bs[b].pc <= WENT_HOME
      ensures s.bs[b].pc !in {TAKE_WAIT, GLASS_WAIT, LOCK_TAKE, LOCK_SHELF, LOCK_BOTTLES, WENT_HOME} ==> CanB(s, b)
    {
      assert BartenderOk(s, b);
      if UNLOCK_TAKE <= s.bs[b].pc <= SERVE {
        assert SlotOk(s, s.bs[b].order);
      }
    }
    forall c: nat | c < |s.cs|
      ensures s.cs[c].pc <= HOME
      ensures s.cs[c].pc !in {AWAIT, LOCK_ORDERS, LOCK_GIVEN, LOCK_RESET, LOCK_GLASS, LOCK_DRINKERS, HOME} ==>
                CanC(s, c, GoHome)
    {
      assert CustomerOk(s, c);
      if FETCH <= s.cs[c].pc <= RESET {
        assert SlotOk(s, s.cs[c].slot);
      }
    }
  }

  /** At every point of every run, at most one thread is between taking and releasing any of the locks. */
  lemma LocksExclude(trace: seq<State>, moves: seq<Move>, nc: nat, ng: nat, nb: nat, k: nat)
    requires Run(trace, moves, nc, ng, nb) && k <= |moves|
    ensures var s := trace[k];
            && Count(s.cs, LocksOrders) + Count(s.bs, BLocksOrders) <= 1
            && Count(s.cs, LocksGlasses) + Count(s.bs, BLocksGlasses) <= 1
            && Count(s.bs, BLocksBottles) <= 1 && Count(s.cs, LocksDrinkers) <= 1
  {
    RunKeepsInv(trace, moves, nc, ng, nb, k);
  }

  /** Two customers never have the same slot. */
  lemma CustomersApart(s: State, c: nat, d: nat)
    requires Inv(s) && c < |s.cs| && d < |s.cs| && c != d && Holding(s.cs[c]) && Holding(s.cs[d])
    ensures s.cs[c].slot != s.cs[d].slot
  {
    assert CustomerOk(s, c) && CustomerOk(s, d);
  }

  /** Two bartenders never work on the same order. */
  lemma BartendersApart(s: State, a: nat, b: nat)
    requires Inv(s) && a < |s.bs| && b < |s.bs| && a != b
    requires UNLOCK_TAKE <= s.bs[a].pc <= SERVE && UNLOCK_TAKE <= s.bs[b].pc <= SERVE
    ensures s.bs[a].order != s.bs[b].order
  {
    assert BartenderOk(s, a) && BartenderOk(s, b);
  }

  /** The glasses that threads have in their hands, as the order slots that they are for. */
  predicate HasGlass(s: State, g: nat, i: nat) {
    || (exists c: nat :: c < |s.cs| && LABEL <= s.cs[c].pc <= PUT_BACK && s.cs[c].glass == g && s.cs[c].slot == i)
    || (exists b: nat :: b < |s.bs| && UNLOCK_SHELF <= s.bs[b].pc <= SERVE && s.bs[b].glass == g && s.bs[b].order == i)
  }

  /** No glass serves two orders at once. */
  lemma OneOrderPerGlass(s: State, g: nat, i: nat, j: nat)
    requires Inv(s) && HasGlass(s, g, i) && HasGlass(s, g, j)
    ensures i == j
  {
    GlassIsFor(s, g, i);
    GlassIsFor(s, g, j);
  }

  lemma GlassIsFor(s: State, g: nat, i: nat)
    requires Inv(s) && HasGlass(s, g, i)
    ensures g < |s.glasses| && s.glassuses[g] == For(i)
  {
    if c: nat :| c < |s.cs| && LABEL <= s.cs[c].pc <= PUT_BACK && s.cs[c].glass == g && s.cs[c].slot == i {
      assert CustomerOk(s, c) && SlotOk(s, i);
    } else {
      var b: nat :| b < |s.bs| && UNLOCK_SHELF <= s.bs[b].pc <= SERVE && s.bs[b].glass == g && s.bs[b].order == i;
      assert BartenderOk(s, b);
    }
  }

  /** The customer drinks what it ordered: its real ingredients in order, then nothing. */
  lemma RightDrink(s: State, c: nat)
    requires Inv(s) && c < |s.cs| && LABEL <= s.cs[c].pc <= DRINK
    ensures s.cs[c].glass < |s.glasses| && s.glasses[s.cs[c].glass].contents == Poured(s.cs[c].ing)
  {
    assert CustomerOk(s, c) && SlotOk(s, s.cs[c].slot);
  }

  /** At every point of every run the bottles know how often they were poured from. */
  lemma DosesAreCounted(trace: seq<State>, moves: seq<Move>, nc: nat, ng: nat, nb: nat, k: nat, bottle: nat)
    requires Run(trace, moves, nc, ng, nb) && k <= |moves| && bottle < NBOTTLES
    ensures |trace[k].bottles| == NBOTTLES && trace[k].bottles[bottle] == multiset(trace[k].poured)[bottle]
  {
    RunKeepsInv(trace, moves, nc, ng, nb, k);
  }

  /** While the closing orders are placed everybody else has left: no other customer has a slot or will want one. */
  lemma ClosingAlone(s: State, c: nat, d: nat)
    requires Inv(s) && c < |s.cs| && d < |s.cs| && c != d && s.cs[c].last
    ensures s.cs[d].pc == HOME && !s.cs[d].last
    ensures s.cs[c].left <= |s.bs| && s.ndrinkers == 0
  {
    hide Count;
    assert CustomerOk(s, c) && CustomerOk(s, d);
    if s.cs[d].last || LEAVE <= s.cs[d].pc <= UNLOCK_DRINKERS {
      CountTwo(s.cs, c, d, LocksDrinkers);
    }
    CountUpdate(s.cs, d, s.cs[d], Inside);
  }
}
