/** The four ways the kernel heap changes: a block taken, a block given back, a page added, a page dropped. */
module KheapSteps {
  import opened Arithmetic
  import opened PageRefs
  import opened Kheap

  /** The lists, the block types and the bitmap are the same; only free lists may differ. */
  predicate SameLinks(h: Heap, g: Heap) {
    && |h.refs| == |g.refs| == NPAGEREFS && h.inuse == g.inuse && h.bases == g.bases && h.allbase == g.allbase
    && forall q: nat | q < NPAGEREFS :: h.refs[q].nextSame == g.refs[q].nextSame
                                         && h.refs[q].nextAll == g.refs[q].nextAll && h.refs[q].pab == g.refs[q].pab
  }

  lemma SameLinksKeepLists(h: Heap, v: Lists, g: Heap, w: Lists)
    requires Sized(h, v) && ListsOk(h, v) && SameLinks(h, g) && w.all == v.all && w.bySize == v.bySize
    ensures Sized(g, w) && ListsOk(g, w)
  {
    forall t: nat | t < NSIZES
      ensures SameChain(g.refs, g.bases[t], w.bySize[t]) && NoDup(w.bySize[t])
    {
      assert SameChain(h.refs, h.bases[t], v.bySize[t]);
    }
    forall t: nat, r: nat | t < NSIZES
      ensures r in w.bySize[t] <==> r in w.all && BlockType(g.refs[r]) == t
    {
      assert r in v.bySize[t] <==> r in v.all && BlockType(h.refs[r]) == t;
    }
  }

  /** A page whose reference, free list and free blocks in memory are the same is as good as before. */
  lemma SamePage(h: Heap, v: Lists, g: Heap, w: Lists, q: nat)
    requires |h.refs| == |g.refs| == NPAGEREFS && q < NPAGEREFS && PageOk(h, v, q)
    requires g.refs[q].pab == h.refs[q].pab && g.refs[q].offset == h.refs[q].offset
             && g.refs[q].nfree == h.refs[q].nfree
    requires q in w.free && w.free[q] == v.free[q]
    requires forall i: nat | i < |v.free[q]| ::
               Load(g.mem, PageAddr(h.refs[q]) + v.free[q][i]) == Load(h.mem, PageAddr(h.refs[q]) + v.free[q][i])
    ensures PageOk(g, w, q)
  {
    hide SizeOf, PageAddr, BlockType, Offsets, Blocks;
    SamePab(h.refs[q], g.refs[q]);
  }

  // ----- a block is taken from a page

  function Popped(h: Heap, r: nat, l: seq<nat>): Heap
    requires |h.refs| == NPAGEREFS && r < NPAGEREFS && l != [] && h.refs[r].nfree > 0
  {
    var pr := h.refs[r].(offset := if |l| > 1 then l[1] else INVALID_OFFSET, nfree := h.refs[r].nfree - 1);
    h.(refs := h.refs[r := pr])
  }

  function PoppedLists(v: Lists, r: nat): Lists
    requires r in v.free && v.free[r] != []
  {
    v.(free := v.free[r := v.free[r][1..]])
  }

  lemma PopPage(h: Heap, v: Lists, r: nat)
    requires |h.refs| == NPAGEREFS && r < NPAGEREFS && PageOk(h, v, r) && v.free[r] != []
    ensures h.refs[r].nfree > 0 && PageOk(Popped(h, r, v.free[r]), PoppedLists(v, r), r)
  {
    hide PageAddr, BlockType, SizeOf, Blocks, FreeChain, Offsets;
    var l := v.free[r];
    var page := PageAddr(h.refs[r]);
    SamePab(h.refs[r], Popped(h, r, l).refs[r]);
    PopChain(h.mem, page, h.refs[r].offset, l);
    PopOffsets(l, BlockType(h.refs[r]));
  }

  lemma PopChain(mem: map<nat, nat>, page: nat, offset: nat, l: seq<nat>)
    requires FreeChain(mem, page, offset, l) && l != []
    ensures FreeChain(mem, page, if |l| > 1 then l[1] else INVALID_OFFSET, l[1..])
  {
    hide FreePtr;
    var m := l[1..];
    forall i: nat | i < |m|
      ensures Load(mem, page + m[i]) == FreePtr(page, m, i + 1)
    {
      FreePtrShift(page, l, i + 1);
      assert m[i] == l[i + 1] && Load(mem, page + l[i + 1]) == FreePtr(page, l, i + 2);
    }
  }

  /** A list and its tail hold the same addresses, one place apart. */
  lemma FreePtrShift(page: nat, l: seq<nat>, i: nat)
    requires l != []
    ensures FreePtr(page, l, i + 1) == FreePtr(page, l[1..], i)
  {
  }

  lemma PopOffsets(l: seq<nat>, t: nat)
    requires t < NSIZES && Offsets(l, t) && l != []
    ensures Offsets(l[1..], t)
  {
    hide SizeOf;
    TailNoDup(l);
    forall i: nat | i < |l[1..]|
      ensures l[1..][i] < PAGE_SIZE && l[1..][i] % SizeOf(t) == 0
    {
      assert l[1..][i] == l[i + 1];
    }
  }

  lemma SamePab(a: PageRef, b: PageRef)
    requires a.pab == b.pab
    ensures PageAddr(a) == PageAddr(b) && BlockType(a) == BlockType(b)
  {
  }

  lemma PopKeeps(h: Heap, v: Lists, r: nat)
    requires HeapOk(h, v) && r in v.all && r in v.free && v.free[r] != []
    ensures h.refs[r].nfree > 0 && HeapOk(Popped(h, r, v.free[r]), PoppedLists(v, r))
  {
    hide PageOk, ListsOk, PageAddr;
    assert PageOk(h, v, r);
    PopPage(h, v, r);
    var g, w := Popped(h, r, v.free[r]), PoppedLists(v, r);
    SameLinksKeepLists(h, v, g, w);
    forall q | q in w.all
      ensures PageOk(g, w, q)
    {
      assert PageOk(h, v, q);
      if q != r {
        assert q in v.free by { assert PageOk(h, v, q); PageListed(h, v, q); }
        SamePage(h, v, g, w, q);
      }
    }
    SameAddresses(h, v, g, w);
  }

  lemma PageListed(h: Heap, v: Lists, q: nat)
    requires |h.refs| == NPAGEREFS && q < NPAGEREFS && PageOk(h, v, q)
    ensures q in v.free
  {
  }

  lemma SameAddresses(h: Heap, v: Lists, g: Heap, w: Lists)
    requires HeapOk(h, v) && SameLinks(h, g) && w.all == v.all
    ensures forall r, q | r in w.all && q in w.all && r != q :: PageAddr(g.refs[r]) != PageAddr(g.refs[q])
  {
    hide ListsOk, PageOk;
    forall r, q | r in w.all && q in w.all && r != q
      ensures PageAddr(g.refs[r]) != PageAddr(g.refs[q])
    {
      SamePab(h.refs[r], g.refs[r]);
      SamePab(h.refs[q], g.refs[q]);
    }
  }

  /** Exactly the block at the head of the free list becomes live. */
  lemma PopLive(h: Heap, v: Lists, r: nat, q: nat, a: nat)
    requires HeapOk(h, v) && r in v.all && r in v.free && v.free[r] != [] && h.refs[r].nfree > 0
    ensures Sized(Popped(h, r, v.free[r]), PoppedLists(v, r))
    ensures LiveAt(Popped(h, r, v.free[r]), PoppedLists(v, r), q, a)
            <==> LiveAt(h, v, q, a) || (q == r && a == PageAddr(h.refs[r]) + v.free[r][0])
  {
    hide ListsOk, SizeOf, PageAddr, BlockType, FreeChain;
    assert PageOk(h, v, r);
    var l := v.free[r];
    var g, w := Popped(h, r, l), PoppedLists(v, r);
    if q in v.all {
      SamePab(h.refs[q], g.refs[q]);
    }
    if q == r {
      assert forall o: nat :: o in l <==> o == l[0] || o in l[1..];
      assert l[0] !in l[1..] by {
        forall i: nat | i < |l[1..]| ensures l[1..][i] != l[0] { assert l[1..][i] == l[i + 1]; }
      }
    }
  }

  // ----- a block is given back

  function Pushed(h: Heap, r: nat, o: nat, mem: map<nat, nat>): Heap
    requires |h.refs| == NPAGEREFS && r < NPAGEREFS
  {
    h.(refs := h.refs[r := h.refs[r].(offset := o, nfree := h.refs[r].nfree + 1)], mem := mem)
  }

  function PushedLists(v: Lists, r: nat, o: nat): Lists
    requires r in v.free
  {
    v.(free := v.free[r := [o] + v.free[r]])
  }

  /** Memory with block `a` of `z` bytes filled and linked in front of the free list `l` of `page`. */
  ghost predicate LinkedIn(mem: map<nat, nat>, mem': map<nat, nat>, page: nat, o: nat, z: nat, l: seq<nat>) {
    && Load(mem', page + o) == FreePtr(page, l, 0)
    && forall a: nat | !(page + o <= a < page + o + z) :: Load(mem', a) == Load(mem, a)
  }

  /** Only free blocks of a page lie on its free list, and they leave room for one that does not. */
  lemma RoomForOne(l: seq<nat>, t: nat, o: nat)
    requires t < NSIZES && Offsets(l, t) && o < PAGE_SIZE && o % SizeOf(t) == 0 && o !in l
    ensures |l| < Blocks(t)
  {
    var g := Grid(Blocks(t), SizeOf(t));
    GridHas(Blocks(t), SizeOf(t), o);
    GridCount(Blocks(t), SizeOf(t));
    ElementsInGrid(l, t);
    ElementsCount(l);
    assert Elements(l) <= g - {o};
    Subset(Elements(l), g - {o});
  }

  function Times(n: nat, z: nat): (x: nat)
    ensures x == n * z
  {
    n * z
  }

  /** The multiples of `z` below `n * z`. */
  ghost function Grid(n: nat, z: nat): set<nat> {
    if n == 0 then {} else Grid(n - 1, z) + {Times(n - 1, z)}
  }

  lemma OneMore(g: set<nat>, x: nat)
    requires x !in g
    ensures |g + {x}| == |g| + 1
  {
  }

  lemma {:induction false} GridCount(n: nat, z: nat)
    requires z > 0
    ensures |Grid(n, z)| == n
  {
    if n > 0 {
      GridCount(n - 1, z);
      GridHas(n - 1, z, Times(n - 1, z));
      OneMore(Grid(n - 1, z), Times(n - 1, z));
    }
  }

  lemma {:induction false} GridHas(n: nat, z: nat, x: nat)
    requires z > 0
    ensures x in Grid(n, z) <==> x < n * z && x % z == 0
  {
    if n > 0 {
      GridHas(n - 1, z, x);
      assert n * z == (n - 1) * z + z;
      MultipleIs(n - 1, z);
      if x >= (n - 1) * z && x < n * z && x % z == 0 && x != (n - 1) * z {
        MultiplesApart((n - 1) * z, x, z);
      }
    }
  }

  ghost function Elements(l: seq<nat>): (e: set<nat>)
    ensures forall x: nat :: x in e <==> x in l
  {
    set x | x in l
  }

  lemma {:induction false} ElementsCount(l: seq<nat>)
    requires NoDup(l)
    ensures |Elements(l)| == |l|
  {
    if l != [] {
      var m := l[1..];
      assert NoDup(m) by {
        forall i: nat, j: nat | i < j < |m| ensures m[i] != m[j] { assert m[i] == l[i + 1] && m[j] == l[j + 1]; }
      }
      ElementsCount(m);
      assert l[0] !in m by {
        forall i: nat | i < |m| ensures m[i] != l[0] { assert m[i] == l[i + 1]; }
      }
      assert l == [l[0]] + m;
      assert Elements(l) == Elements(m) + {l[0]};
    }
  }

  lemma OffsetsNoDup(l: seq<nat>, t: nat)
    requires t < NSIZES && Offsets(l, t)
    ensures NoDup(l)
  {
  }

  lemma ElementsInGrid(l: seq<nat>, t: nat)
    requires t < NSIZES && Offsets(l, t)
    ensures Elements(l) <= Grid(Blocks(t), SizeOf(t))
  {
    forall x | x in Elements(l)
      ensures x in Grid(Blocks(t), SizeOf(t))
    {
      GridHas(Blocks(t), SizeOf(t), x);
    }
  }

  lemma {:induction false} Subset(a: set<nat>, b: set<nat>)
    requires a <= b
    ensures |a| <= |b| && |b - a| == |b| - |a|
  {
    if a != {} {
      var x :| x in a;
      Subset(a - {x}, b - {x});
      assert b - {x} - (a - {x}) == b - a;
    } else {
      assert b - a == b;
    }
  }

  /** The blocks of a page in use and its free blocks are all its blocks. */
  lemma LivePlusFree(h: Heap, v: Lists, r: nat) returns (inUse: set<nat>)
    requires HeapOk(h, v) && r in v.all
    ensures forall o: nat :: o in inUse <==> LiveAt(h, v, r, PageAddr(h.refs[r]) + o)
    ensures BlockType(h.refs[r]) < NSIZES && |inUse| + h.refs[r].nfree == Blocks(BlockType(h.refs[r]))
  {
    hide ListsOk, PageAddr, BlockType, SizeOf, Blocks, FreeChain, Grid, Offsets;
    assert PageOk(h, v, r);
    var t, l := BlockType(h.refs[r]), v.free[r];
    var g := Grid(Blocks(t), SizeOf(t));
    GridCount(Blocks(t), SizeOf(t));
    assert NoDup(l) by { OffsetsNoDup(l, t); }
    ElementsInGrid(l, t);
    ElementsCount(l);
    Subset(Elements(l), g);
    inUse := g - Elements(l);
    forall o: nat
      ensures o in inUse <==> LiveAt(h, v, r, PageAddr(h.refs[r]) + o)
    {
      GridHas(Blocks(t), SizeOf(t), o);
    }
  }

  lemma PushPage(h: Heap, v: Lists, r: nat, o: nat, mem: map<nat, nat>)
    requires |h.refs| == NPAGEREFS && r < NPAGEREFS && PageOk(h, v, r)
    requires o < PAGE_SIZE && o % SizeOf(BlockType(h.refs[r])) == 0 && o !in v.free[r]
    requires LinkedIn(h.mem, mem, PageAddr(h.refs[r]), o, SizeOf(BlockType(h.refs[r])), v.free[r])
    ensures PageOk(Pushed(h, r, o, mem), PushedLists(v, r, o), r)
  {
    hide PageAddr, BlockType, SizeOf, Blocks, FreeChain, Offsets, LinkedIn;
    var l, page, t := v.free[r], PageAddr(h.refs[r]), BlockType(h.refs[r]);
    RoomForOne(l, t, o);
    SamePab(h.refs[r], Pushed(h, r, o, mem).refs[r]);
    PushChain(h.mem, mem, page, h.refs[r].offset, t, o, l);
    PushOffsets(l, t, o);
  }

  lemma PushChain(mem: map<nat, nat>, mem': map<nat, nat>, page: nat, offset: nat, t: nat, o: nat, l: seq<nat>)
    requires FreeChain(mem, page, offset, l) && t < NSIZES && Offsets(l, t) && o % SizeOf(t) == 0 && o !in l
    requires LinkedIn(mem, mem', page, o, SizeOf(t), l)
    ensures FreeChain(mem', page, o, [o] + l)
  {
    hide SizeOf, FreePtr, Load;
    var m := [o] + l;
    forall i: nat | i < |m|
      ensures Load(mem', page + m[i]) == FreePtr(page, m, i + 1)
    {
      assert m[1..] == l;
      FreePtrShift(page, m, i);
      if i > 0 {
        assert m[i] == l[i - 1] && Load(mem, page + l[i - 1]) == FreePtr(page, l, i);
        OffsetsApartHere(page, o, l[i - 1], t);
      }
    }
  }

  lemma PushOffsets(l: seq<nat>, t: nat, o: nat)
    requires t < NSIZES && Offsets(l, t) && o < PAGE_SIZE && o % SizeOf(t) == 0 && o !in l
    ensures Offsets([o] + l, t)
  {
    hide SizeOf;
  }

  lemma OffsetsApartHere(page: nat, o: nat, p: nat, t: nat)
    requires t < NSIZES && o % SizeOf(t) == 0 && p % SizeOf(t) == 0 && o != p
    ensures !(page + o <= page + p < page + o + SizeOf(t))
  {
    hide SizeOf;
    if o < p {
      MultiplesApart(o, p, SizeOf(t));
    }
  }

  lemma PushKeeps(h: Heap, v: Lists, r: nat, o: nat, mem: map<nat, nat>)
    requires HeapOk(h, v) && r in v.all && LiveAt(h, v, r, PageAddr(h.refs[r]) + o)
    requires LinkedIn(h.mem, mem, PageAddr(h.refs[r]), o, SizeOf(BlockType(h.refs[r])), v.free[r])
    ensures HeapOk(Pushed(h, r, o, mem), PushedLists(v, r, o))
  {
    hide ListsOk, PageOk, PageAddr, SizeOf, BlockType;
    assert PageOk(h, v, r);
    PushPage(h, v, r, o, mem);
    var g, w := Pushed(h, r, o, mem), PushedLists(v, r, o);
    SameLinksKeepLists(h, v, g, w);
    forall q | q in w.all
      ensures PageOk(g, w, q)
    {
      assert PageOk(h, v, q);
      if q != r {
        PageListed(h, v, q);
        OtherPageSafe(h, v, r, o, q, mem);
        SamePage(h, v, g, w, q);
      }
    }
    SameAddresses(h, v, g, w);
  }

  lemma OtherPageSafe(h: Heap, v: Lists, r: nat, o: nat, q: nat, mem: map<nat, nat>)
    requires HeapOk(h, v) && r in v.all && LiveAt(h, v, r, PageAddr(h.refs[r]) + o) && q in v.all && q in v.free
    requires LinkedIn(h.mem, mem, PageAddr(h.refs[r]), o, SizeOf(BlockType(h.refs[r])), v.free[r])
    ensures forall i: nat | i < |v.free[q]| ::
              Load(mem, PageAddr(h.refs[q]) + v.free[q][i]) == Load(h.mem, PageAddr(h.refs[q]) + v.free[q][i])
  {
    hide ListsOk, PageAddr, SizeOf, BlockType, FreeChain;
    assert PageOk(h, v, q);
    forall i: nat | i < |v.free[q]|
      ensures Load(mem, PageAddr(h.refs[q]) + v.free[q][i]) == Load(h.mem, PageAddr(h.refs[q]) + v.free[q][i])
    {
      BlocksApart(h, v, r, o, q, v.free[q][i]);
    }
  }

  /** Exactly the block given back is no longer live. */
  lemma PushLive(h: Heap, v: Lists, r: nat, o: nat, mem: map<nat, nat>, q: nat, a: nat)
    requires Sized(h, v) && r in v.all && r in v.free
    ensures Sized(Pushed(h, r, o, mem), PushedLists(v, r, o))
    ensures LiveAt(Pushed(h, r, o, mem), PushedLists(v, r, o), q, a)
            <==> LiveAt(h, v, q, a) && !(q == r && a == PageAddr(h.refs[r]) + o)
  {
    hide SizeOf, PageAddr, BlockType;
    if q in v.all {
      SamePab(h.refs[q], Pushed(h, r, o, mem).refs[q]);
    }
  }

  // ----- a page joins the heap

  /** The free list of a new page: its blocks from the last to the first. */
  function NewList(n: nat, z: nat): (l: seq<nat>)
    ensures |l| == n && forall i: nat | i < n :: l[i] == (n - 1 - i) * z
  {
    seq(n, i requires 0 <= i < n => Times(n - 1 - i, z))
  }

  lemma NewListOffsets(t: nat)
    requires t < NSIZES
    ensures Offsets(NewList(Blocks(t), SizeOf(t)), t)
    ensures forall o: nat | o < PAGE_SIZE && o % SizeOf(t) == 0 :: o in NewList(Blocks(t), SizeOf(t))
  {
    var n, z := Blocks(t), SizeOf(t);
    var l := NewList(n, z);
    forall i: nat | i < n
      ensures l[i] < PAGE_SIZE && l[i] % z == 0
    {
      MultipleIs(n - 1 - i, z);
      ProductOrder(n - 1 - i, n, z);
    }
    forall i: nat, j: nat | i < j < n
      ensures l[i] != l[j]
    {
      ProductOrder(n - 1 - j, n - 1 - i, z);
    }
    forall o: nat | o < PAGE_SIZE && o % z == 0
      ensures o in l
    {
      var k := Multiple(o, z);
      QuotientOrder(k, n, z);
      assert l[n - 1 - k] == o;
    }
  }

  function Added(h: Heap, r: nat, page: nat, t: nat, inuse: seq<bv32>, mem: map<nat, nat>): Heap
    requires |h.refs| == NPAGEREFS && r < NPAGEREFS && |h.bases| == NSIZES && t < NSIZES
  {
    var pr := PageRef(h.bases[t], h.allbase, MkPab(page, t), (Blocks(t) - 1) * SizeOf(t), Blocks(t));
    Heap(h.refs[r := pr], inuse, h.bases[t := r], r, mem)
  }

  function AddedLists(v: Lists, r: nat, t: nat): Lists
    requires |v.bySize| == NSIZES && t < NSIZES
  {
    Lists([r] + v.all, v.bySize[t := [r] + v.bySize[t]], v.free[r := NewList(Blocks(t), SizeOf(t))])
  }

  /** Memory with the free list laid out in the page, and nothing else changed. */
  ghost predicate LaidOut(mem: map<nat, nat>, mem': map<nat, nat>, page: nat, t: nat)
    requires t < NSIZES
  {
    && FreeChain(mem', page, (Blocks(t) - 1) * SizeOf(t), NewList(Blocks(t), SizeOf(t)))
    && forall a: nat | !(page <= a < page + PAGE_SIZE) :: Load(mem', a) == Load(mem, a)
  }

  /** The page is aligned, in the address space and not one of the heap's. */
  ghost predicate NewPage(h: Heap, v: Lists, page: nat)
    requires Sized(h, v)
  {
    && page % PAGE_SIZE == 0 && 0 < page && page + PAGE_SIZE <= WORD_LIMIT
    && forall q | q in v.all :: PageAddr(h.refs[q]) != page
  }

  ghost predicate AddOk(h: Heap, v: Lists, r: nat, page: nat, t: nat, inuse: seq<bv32>, mem: map<nat, nat>) {
    && HeapOk(h, v) && r < NPAGEREFS && r !in v.all && t < NSIZES && NewPage(h, v, page) && LaidOut(h.mem, mem, page, t)
    && |inuse| == INUSE_WORDS && forall q: nat | q < NPAGEREFS :: Used(inuse, q) <==> q == r || Used(h.inuse, q)
  }

  lemma AddLists(h: Heap, v: Lists, r: nat, page: nat, t: nat, inuse: seq<bv32>, mem: map<nat, nat>)
    requires AddOk(h, v, r, page, t, inuse, mem)
    ensures Sized(Added(h, r, page, t, inuse, mem), AddedLists(v, r, t))
    ensures ListsOk(Added(h, r, page, t, inuse, mem), AddedLists(v, r, t))
  {
    hide PagesOk, Blocks, SizeOf, NewList, Used, LaidOut, AllChain, SameChain, NoDup, PageAddr, BlockType;
    var g, w := Added(h, r, page, t, inuse, mem), AddedLists(v, r, t);
    AddType(h, r, page, t, inuse, mem);
    AddAll(h, v, r, page, t, inuse, mem);
    forall u: nat | u < NSIZES
      ensures SameChain(g.refs, g.bases[u], w.bySize[u]) && NoDup(w.bySize[u])
    {
      AddSame(h, v, r, page, t, inuse, mem, u);
    }
    forall u: nat, q: nat | u < NSIZES
      ensures q in w.bySize[u] <==> q in w.all && BlockType(g.refs[q]) == u
    {
      assert q in v.bySize[u] <==> q in v.all && BlockType(h.refs[q]) == u;
    }
  }

  lemma AddType(h: Heap, r: nat, page: nat, t: nat, inuse: seq<bv32>, mem: map<nat, nat>)
    requires |h.refs| == NPAGEREFS && r < NPAGEREFS && |h.bases| == NSIZES && t < NSIZES && page % PAGE_SIZE == 0
    ensures PageAddr(Added(h, r, page, t, inuse, mem).refs[r]) == page
    ensures BlockType(Added(h, r, page, t, inuse, mem).refs[r]) == t
  {
    PabRoundTrip(page, t, Added(h, r, page, t, inuse, mem).refs[r]);
  }

  lemma LinkShift(r: nat, l: seq<nat>, i: nat)
    ensures Link([r] + l, i + 1) == Link(l, i)
  {
  }

  lemma FirstLink(r: nat, l: seq<nat>)
    ensures Link([r] + l, 0) == r
  {
  }

  lemma AddAll(h: Heap, v: Lists, r: nat, page: nat, t: nat, inuse: seq<bv32>, mem: map<nat, nat>)
    requires AddOk(h, v, r, page, t, inuse, mem)
    ensures AllChain(Added(h, r, page, t, inuse, mem).refs, r, AddedLists(v, r, t).all)
            && NoDup(AddedLists(v, r, t).all)
  {
    hide PagesOk, Blocks, SizeOf, NewList, Used, LaidOut, SameChain, NewPage, Link, PageAddr, BlockType;
    LinkShift(r, v.all, 0);
    FirstLink(r, v.all);
    var g, m := Added(h, r, page, t, inuse, mem), AddedLists(v, r, t).all;
    forall i: nat | i < |m|
      ensures m[i] < NPAGEREFS && g.refs[m[i]].nextAll == Link(m, i + 1)
    {
      LinkShift(r, v.all, i);
      if i > 0 {
        assert m[i] == v.all[i - 1];
      }
    }
  }

  lemma AddSame(h: Heap, v: Lists, r: nat, page: nat, t: nat, inuse: seq<bv32>, mem: map<nat, nat>, u: nat)
    requires AddOk(h, v, r, page, t, inuse, mem) && u < NSIZES
    ensures SameChain(Added(h, r, page, t, inuse, mem).refs, Added(h, r, page, t, inuse, mem).bases[u],
            AddedLists(v, r, t).bySize[u])
    ensures NoDup(AddedLists(v, r, t).bySize[u])
  {
    hide PagesOk, Blocks, SizeOf, NewList, Used, LaidOut, AllChain, NewPage, Link, PageAddr, BlockType;
    FirstLink(r, v.bySize[u]);
    var g, l, m := Added(h, r, page, t, inuse, mem), v.bySize[u], AddedLists(v, r, t).bySize[u];
    assert SameChain(h.refs, h.bases[u], l) && NoDup(l);
    assert r !in l;
    forall i: nat | i < |m|
      ensures m[i] < NPAGEREFS && g.refs[m[i]].nextSame == Link(m, i + 1)
    {
      LinkShift(r, l, i);
      if u == t && i > 0 {
        assert m[i] == l[i - 1];
      }
    }
  }

  lemma AddPage(h: Heap, v: Lists, r: nat, page: nat, t: nat, inuse: seq<bv32>, mem: map<nat, nat>)
    requires AddOk(h, v, r, page, t, inuse, mem)
    ensures PageOk(Added(h, r, page, t, inuse, mem), AddedLists(v, r, t), r)
    ensures PageAddr(Added(h, r, page, t, inuse, mem).refs[r]) == page
    ensures BlockType(Added(h, r, page, t, inuse, mem).refs[r]) == t
  {
    hide PagesOk, ListsOk, Blocks, SizeOf, NewList, Used;
    AddType(h, r, page, t, inuse, mem);
    NewListOffsets(t);
  }

  lemma AddKeeps(h: Heap, v: Lists, r: nat, page: nat, t: nat, inuse: seq<bv32>, mem: map<nat, nat>)
    requires AddOk(h, v, r, page, t, inuse, mem)
    ensures HeapOk(Added(h, r, page, t, inuse, mem), AddedLists(v, r, t))
  {
    hide ListsOk, PageOk, PageAddr, SizeOf, BlockType, NewList, Blocks, Used;
    var g, w := Added(h, r, page, t, inuse, mem), AddedLists(v, r, t);
    AddLists(h, v, r, page, t, inuse, mem);
    AddPage(h, v, r, page, t, inuse, mem);
    forall q | q in w.all
      ensures PageOk(g, w, q)
    {
      if q != r {
        assert PageOk(h, v, q);
        PageListed(h, v, q);
        AddSpares(h, v, r, page, t, inuse, mem, q);
        SamePage(h, v, g, w, q);
      }
    }
  }

  lemma AddSpares(h: Heap, v: Lists, r: nat, page: nat, t: nat, inuse: seq<bv32>, mem: map<nat, nat>, q: nat)
    requires AddOk(h, v, r, page, t, inuse, mem) && q in v.all && q in v.free
    ensures forall i: nat | i < |v.free[q]| ::
              Load(mem, PageAddr(h.refs[q]) + v.free[q][i]) == Load(h.mem, PageAddr(h.refs[q]) + v.free[q][i])
  {
    hide ListsOk, SizeOf, BlockType, NewList, Blocks, Used, FreeChain;
    assert PageOk(h, v, q);
    PagesApart(PageAddr(h.refs[q]), page);
  }

  /** A new page changes no block in use. */
  lemma AddLive(h: Heap, v: Lists, r: nat, page: nat, t: nat, inuse: seq<bv32>, mem: map<nat, nat>, q: nat, a: nat)
    requires AddOk(h, v, r, page, t, inuse, mem)
    ensures Sized(Added(h, r, page, t, inuse, mem), AddedLists(v, r, t))
    ensures LiveAt(Added(h, r, page, t, inuse, mem), AddedLists(v, r, t), q, a) <==> LiveAt(h, v, q, a)
  {
    hide ListsOk, PageOk, PageAddr, SizeOf, BlockType, NewList, Blocks, Used, FreeChain;
    if q == r {
      AddPage(h, v, r, page, t, inuse, mem);
      NewListOffsets(t);
    }
  }

  // ----- a page leaves the heap

  function Without(l: seq<nat>, r: nat): (m: seq<nat>)
    ensures r !in l ==> m == l
  {
    if l == [] then [] else if l[0] == r then l[1..] else [l[0]] + Without(l[1..], r)
  }

  lemma {:induction false} WithoutHas(l: seq<nat>, r: nat)
    requires NoDup(l)
    ensures NoDup(Without(l, r)) && forall q: nat :: q in Without(l, r) <==> q in l && q != r
  {
    if l != [] {
      TailNoDup(l);
      WithoutHas(l[1..], r);
      assert l == [l[0]] + l[1..];
    }
  }

  lemma TailNoDup(l: seq<nat>)
    requires NoDup(l) && l != []
    ensures NoDup(l[1..]) && l[0] !in l[1..]
  {
    var m := l[1..];
    forall i: nat | i < |m| ensures m[i] != l[0] { assert m[i] == l[i + 1]; }
    forall i: nat, j: nat | i < j < |m| ensures m[i] != m[j] { assert m[i] == l[i + 1] && m[j] == l[j + 1]; }
  }

  /** Taking element `k` out of a list without duplicates. */
  lemma {:induction false} WithoutAt(l: seq<nat>, k: nat)
    requires NoDup(l) && k < |l|
    ensures Without(l, l[k]) == l[..k] + l[k + 1..]
  {
    if k > 0 {
      TailNoDup(l);
      WithoutAt(l[1..], k - 1);
      assert l[1..][k - 1] == l[k] && l[0] != l[k];
      assert l[..k] == [l[0]] + l[1..][..k - 1] && l[k + 1..] == l[1..][k..];
    }
  }

  function DroppedLists(v: Lists, r: nat, t: nat): Lists
    requires |v.bySize| == NSIZES && t < NSIZES
  {
    Lists(Without(v.all, r), v.bySize[t := Without(v.bySize[t], r)], v.free - {r})
  }

  /** `g` is `h` with page reference `r` unlinked from the lists and cleared in the bitmap. */
  ghost predicate Dropped(h: Heap, v: Lists, r: nat, t: nat, g: Heap)
    requires HeapOk(h, v) && t < NSIZES
  {
    && |g.refs| == NPAGEREFS && |g.bases| == NSIZES && g.mem == h.mem && |g.inuse| == INUSE_WORDS
    && (forall q: nat | q < NPAGEREFS ::
          g.refs[q].pab == h.refs[q].pab && g.refs[q].offset == h.refs[q].offset && g.refs[q].nfree == h.refs[q].nfree)
    && AllChain(g.refs, g.allbase, Without(v.all, r)) && SameChain(g.refs, g.bases[t], Without(v.bySize[t], r))
    && (forall u: nat | u < NSIZES && u != t :: SameChain(g.refs, g.bases[u], v.bySize[u]))
    && (forall q: nat | q < NPAGEREFS :: Used(g.inuse, q) <==> q != r && Used(h.inuse, q))
  }

  lemma DropKeeps(h: Heap, v: Lists, r: nat, t: nat, g: Heap)
    requires HeapOk(h, v) && r in v.all && BlockType(h.refs[r]) == t && t < NSIZES && Dropped(h, v, r, t, g)
    ensures HeapOk(g, DroppedLists(v, r, t))
  {
    hide PageOk, PageAddr, Used, Without;
    var w := DroppedLists(v, r, t);
    WithoutHas(v.all, r);
    WithoutHas(v.bySize[t], r);
    DropLists(h, v, r, t, g);
    forall q | q in w.all
      ensures PageOk(g, w, q)
    {
      assert PageOk(h, v, q);
      PageListed(h, v, q);
      SamePage(h, v, g, w, q);
    }
    forall p, q | p in w.all && q in w.all && p != q
      ensures PageAddr(g.refs[p]) != PageAddr(g.refs[q])
    {
      SamePab(h.refs[p], g.refs[p]);
      SamePab(h.refs[q], g.refs[q]);
    }
  }

  lemma DropLists(h: Heap, v: Lists, r: nat, t: nat, g: Heap)
    requires HeapOk(h, v) && r in v.all && BlockType(h.refs[r]) == t && t < NSIZES && Dropped(h, v, r, t, g)
    ensures Sized(g, DroppedLists(v, r, t)) && ListsOk(g, DroppedLists(v, r, t))
  {
    hide PageOk, PagesOk, PageAddr, BlockType, Used, Without, AllChain, NoDup, LiveAt;
    var w := DroppedLists(v, r, t);
    WithoutHas(v.all, r);
    WithoutHas(v.bySize[t], r);
    forall u: nat | u < NSIZES
      ensures SameChain(g.refs, g.bases[u], w.bySize[u]) && NoDup(w.bySize[u])
    {
    }
    forall u: nat, q: nat | u < NSIZES
      ensures q in w.bySize[u] <==> q in w.all && BlockType(g.refs[q]) == u
    {
      if q in v.all {
        SamePab(h.refs[q], g.refs[q]);
      }
      assert q in v.bySize[u] <==> q in v.all && BlockType(h.refs[q]) == u;
    }
  }

  lemma NoneLive(h: Heap, v: Lists, r: nat, a: nat)
    requires HeapOk(h, v) && r in v.all && BlockType(h.refs[r]) < NSIZES
             && h.refs[r].nfree == Blocks(BlockType(h.refs[r]))
    ensures !LiveAt(h, v, r, a)
  {
    hide PageOk, PageAddr, Blocks, SizeOf, ListsOk;
    var inUse := LivePlusFree(h, v, r);
    assert inUse == {};
    if a >= PageAddr(h.refs[r]) {
      var o: nat := a - PageAddr(h.refs[r]);
      assert o !in inUse;
    }
  }

  /** A page with all its blocks free takes no block in use with it. */
  lemma DropLive(h: Heap, v: Lists, r: nat, t: nat, g: Heap, q: nat, a: nat)
    requires HeapOk(h, v) && r in v.all && BlockType(h.refs[r]) == t && t < NSIZES && Dropped(h, v, r, t, g)
    requires h.refs[r].nfree == Blocks(t)
    ensures Sized(g, DroppedLists(v, r, t))
    ensures LiveAt(g, DroppedLists(v, r, t), q, a) <==> LiveAt(h, v, q, a)
  {
    hide PageOk, PageAddr, BlockType, Used, Without, Blocks, SizeOf, AllChain, SameChain, ListsOk, NoDup;
    AllNoDup(h, v);
    WithoutHas(v.all, r);
    if q in v.all {
      SamePab(h.refs[q], g.refs[q]);
    }
    if q == r {
      NoneLive(h, v, r, a);
    }
  }

  // ----- the client's blocks

  /** Two blocks in use do not overlap. */
  lemma LiveApart(h: Heap, v: Lists, r: nat, a: nat, q: nat, b: nat)
    requires HeapOk(h, v) && LiveAt(h, v, r, a) && LiveAt(h, v, q, b) && a != b
    ensures Disjoint(a, SizeOf(BlockType(h.refs[r])), b, SizeOf(BlockType(h.refs[q])))
  {
    hide SizeOf, PageAddr, BlockType, ListsOk, PageOk;
    BlocksApart(h, v, r, a - PageAddr(h.refs[r]), q, b - PageAddr(h.refs[q]));
  }

  /** A block in use does not overlap a block on a free list. */
  lemma LiveNotFree(h: Heap, v: Lists, r: nat, a: nat, q: nat, i: nat)
    requires HeapOk(h, v) && LiveAt(h, v, r, a) && q in v.all && PageOk(h, v, q) && i < |v.free[q]|
    ensures Disjoint(a, SizeOf(BlockType(h.refs[r])), PageAddr(h.refs[q]) + v.free[q][i], SizeOf(BlockType(h.refs[q])))
  {
    hide SizeOf, PageAddr, BlockType, ListsOk, FreeChain;
    BlocksApart(h, v, r, a - PageAddr(h.refs[r]), q, v.free[q][i]);
  }

  /** A block in use lies outside every allocation of whole pages. */
  lemma LiveNotBig(h: Heap, v: Lists, big: map<nat, nat>, r: nat, a: nat, b: nat)
    requires HeapOk(h, v) && BigOk(h, v, big) && LiveAt(h, v, r, a) && b in big
    ensures Disjoint(a, SizeOf(BlockType(h.refs[r])), b, big[b] * PAGE_SIZE)
  {
    hide SizeOf, ListsOk, PageOk, BlockType;
    var page, n := PageAddr(h.refs[r]), big[b];
    BlockInPage(a - page, BlockType(h.refs[r]));
    assert OwnPages(h, v, b, n);
    PageOutside(page, b, n);
  }

  lemma PageOutside(page: nat, b: nat, n: nat)
    requires page % PAGE_SIZE == 0 && b % PAGE_SIZE == 0 && !(b <= page < b + n * PAGE_SIZE)
    ensures Disjoint(page, PAGE_SIZE, b, n * PAGE_SIZE)
  {
    if page < b {
      PagesApart(page, b);
    }
  }

  lemma OnePage(h: Heap, v: Lists, live: map<nat, nat>, r: nat, q: nat, a: nat)
    requires HeapOk(h, v) && LiveAt(h, v, r, a) && LiveAt(h, v, q, a)
    ensures r == q
  {
    hide SizeOf, ListsOk, PageOk, BlockType;
    if r != q {
      PagesApart(PageAddr(h.refs[r]), PageAddr(h.refs[q]));
    }
  }

  ghost predicate SamePages(h: Heap, v: Lists, g: Heap, w: Lists)
    requires Sized(h, v) && Sized(g, w)
  {
    forall q | q in w.all :: q in v.all && PageAddr(g.refs[q]) == PageAddr(h.refs[q])
  }

  lemma BigKept(h: Heap, v: Lists, g: Heap, w: Lists, big: map<nat, nat>)
    requires Sized(h, v) && Sized(g, w) && BigOk(h, v, big) && SamePages(h, v, g, w)
    ensures BigOk(g, w, big)
  {
    hide PageAddr;
    forall b | b in big
      ensures OwnPages(g, w, b, big[b])
    {
      assert OwnPages(h, v, b, big[b]);
    }
  }

  lemma PopGood(h: Heap, v: Lists, live: map<nat, nat>, big: map<nat, nat>, r: nat, sz: nat)
    requires Good(h, v, live, big) && r in v.all && r in v.free && v.free[r] != []
    requires BlockType(h.refs[r]) < NSIZES && sz <= SizeOf(BlockType(h.refs[r]))
    requires NoEmptyPage(h, v, r)
    ensures h.refs[r].nfree > 0
    ensures var a := PageAddr(h.refs[r]) + v.free[r][0]; var g := Popped(h, r, v.free[r]); var w := PoppedLists(v, r);
            a !in live && Good(g, w, live[a := sz], big) && LiveAt(g, w, r, a) && NoEmptyPage(g, w, NONE)
  {
    hide ListsOk, PagesOk, LiveAt, PageAddr, BlockType, SizeOf, Blocks, BigOk;
    PopKeeps(h, v, r);
    var l := v.free[r];
    var a, g, w := PageAddr(h.refs[r]) + l[0], Popped(h, r, l), PoppedLists(v, r);
    assert Sized(g, w) by { HeapSized(g, w); }
    forall q: nat, b: nat
      ensures LiveAt(g, w, q, b) <==> LiveAt(h, v, q, b) || (q == r && b == a)
    {
      PopLive(h, v, r, q, b);
    }
    if a in live {
      PopFresh(h, v, live, r);
    }
    forall q | q in w.all
      ensures PageAddr(g.refs[q]) == PageAddr(h.refs[q]) && BlockType(g.refs[q]) == BlockType(h.refs[q])
    {
      SamePab(h.refs[q], g.refs[q]);
    }
    BigKept(h, v, g, w, big);
    LivePopped(h, v, live, r, a, sz, g, w);
    PopNotEmpty(h, v, r);
  }

  lemma HeapSized(h: Heap, v: Lists)
    requires HeapOk(h, v)
    ensures Sized(h, v)
  {
  }

  lemma PopNotEmpty(h: Heap, v: Lists, r: nat)
    requires HeapOk(h, v) && r in v.all && r in v.free && v.free[r] != [] && h.refs[r].nfree > 0 && NoEmptyPage(h, v, r)
    ensures Sized(Popped(h, r, v.free[r]), PoppedLists(v, r))
    ensures NoEmptyPage(Popped(h, r, v.free[r]), PoppedLists(v, r), NONE)
  {
    hide PageAddr, BlockType, SizeOf, Blocks, ListsOk, Offsets, FreeChain;
    var g := Popped(h, r, v.free[r]);
    assert PageOk(h, v, r);
    forall q | q in v.all
      ensures BlockType(g.refs[q]) < NSIZES && g.refs[q].nfree < Blocks(BlockType(g.refs[q]))
    {
      SamePab(h.refs[q], g.refs[q]);
    }
  }

  /** A free block is not live. */
  lemma PopFresh(h: Heap, v: Lists, live: map<nat, nat>, r: nat)
    requires HeapOk(h, v) && LiveOk(h, v, live) && r in v.all && r in v.free && v.free[r] != []
    ensures PageAddr(h.refs[r]) + v.free[r][0] !in live
  {
    hide SizeOf, PageAddr, BlockType, ListsOk, FreeChain;
    var a := PageAddr(h.refs[r]) + v.free[r][0];
    assert PageOk(h, v, r);
    if a in live {
      var q: nat :| LiveAt(h, v, q, a);
      assert PageOk(h, v, q);
      if q != r {
        PagesApart(PageAddr(h.refs[r]), PageAddr(h.refs[q]));
      }
    }
  }

  lemma LivePopped(h: Heap, v: Lists, live: map<nat, nat>, r: nat, a: nat, sz: nat, g: Heap, w: Lists)
    requires Sized(h, v) && Sized(g, w) && LiveOk(h, v, live) && r < NPAGEREFS && a !in live
    requires forall q: nat, b: nat :: LiveAt(g, w, q, b) <==> LiveAt(h, v, q, b) || (q == r && b == a)
    requires forall q | q in w.all :: BlockType(g.refs[q]) == BlockType(h.refs[q])
    requires BlockType(h.refs[r]) < NSIZES && sz <= SizeOf(BlockType(h.refs[r]))
    ensures LiveOk(g, w, live[a := sz])
  {
    hide PageAddr, BlockType, SizeOf;
    var live' := live[a := sz];
    forall b | b in live'
      ensures exists q: nat :: LiveAt(g, w, q, b) && live'[b] <= SizeOf(BlockType(g.refs[q]))
    {
      if b == a {
        assert LiveAt(g, w, r, a);
      } else {
        var q: nat :| LiveAt(h, v, q, b) && live[b] <= SizeOf(BlockType(h.refs[q]));
        assert LiveAt(g, w, q, b);
      }
    }
  }

  /** The same blocks are live on pages of the same type. */
  lemma LiveKept(h: Heap, v: Lists, live: map<nat, nat>, g: Heap, w: Lists)
    requires Sized(h, v) && Sized(g, w) && LiveOk(h, v, live)
    requires forall q: nat, b: nat :: LiveAt(g, w, q, b) <==> LiveAt(h, v, q, b)
    requires forall q | q in v.all && q in w.all :: BlockType(g.refs[q]) == BlockType(h.refs[q])
    ensures LiveOk(g, w, live)
  {
    hide PageAddr, BlockType, SizeOf;
    forall b | b in live
      ensures exists q: nat :: LiveAt(g, w, q, b) && live[b] <= SizeOf(BlockType(g.refs[q]))
    {
      var q: nat :| LiveAt(h, v, q, b) && live[b] <= SizeOf(BlockType(h.refs[q]));
      assert LiveAt(g, w, q, b);
    }
  }

  lemma PushGood(h: Heap, v: Lists, live: map<nat, nat>, big: map<nat, nat>, r: nat, o: nat, mem: map<nat, nat>)
    requires Good(h, v, live, big) && r < NPAGEREFS && LiveAt(h, v, r, PageAddr(h.refs[r]) + o)
             && NoEmptyPage(h, v, NONE)
    requires LinkedIn(h.mem, mem, PageAddr(h.refs[r]), o, SizeOf(BlockType(h.refs[r])), v.free[r])
    ensures Good(Pushed(h, r, o, mem), PushedLists(v, r, o), live - {PageAddr(h.refs[r]) + o}, big)
    ensures NoEmptyPage(Pushed(h, r, o, mem), PushedLists(v, r, o), r)
    ensures PageAddr(h.refs[r]) + o in live
  {
    hide ListsOk, PagesOk, PageAddr, BlockType, SizeOf, Blocks, BigOk, LinkedIn, LiveAt, LiveOk;
    PushPrep(h, v, live, r, o);
    var a, g, w := PageAddr(h.refs[r]) + o, Pushed(h, r, o, mem), PushedLists(v, r, o);
    PushKeeps(h, v, r, o, mem);
    assert Sized(g, w) by { HeapSized(g, w); }
    forall q: nat, b: nat
      ensures LiveAt(g, w, q, b) <==> LiveAt(h, v, q, b) && b != a
    {
      PushLive(h, v, r, o, mem, q, b);
      if LiveAt(h, v, q, b) && b == a {
        OnePage(h, v, live, r, q, a);
      }
    }
    forall q | q in w.all
      ensures PageAddr(g.refs[q]) == PageAddr(h.refs[q]) && BlockType(g.refs[q]) == BlockType(h.refs[q])
    {
      SamePab(h.refs[q], g.refs[q]);
    }
    BigKept(h, v, g, w, big);
    LivePushed(h, v, live, a, g, w);
  }

  lemma PushPrep(h: Heap, v: Lists, live: map<nat, nat>, r: nat, o: nat)
    requires HeapOk(h, v) && LiveOk(h, v, live) && r < NPAGEREFS && LiveAt(h, v, r, PageAddr(h.refs[r]) + o)
    ensures r in v.all && r in v.free && PageAddr(h.refs[r]) + o in live
  {
  }

  lemma LivePushed(h: Heap, v: Lists, live: map<nat, nat>, a: nat, g: Heap, w: Lists)
    requires Sized(h, v) && Sized(g, w) && LiveOk(h, v, live)
    requires forall q: nat, b: nat :: LiveAt(g, w, q, b) <==> LiveAt(h, v, q, b) && b != a
    requires forall q | q in w.all :: BlockType(g.refs[q]) == BlockType(h.refs[q])
    ensures LiveOk(g, w, live - {a})
  {
    hide PageAddr, BlockType, SizeOf;
    var live' := live - {a};
    forall b | b in live'
      ensures exists q: nat :: LiveAt(g, w, q, b) && live'[b] <= SizeOf(BlockType(g.refs[q]))
    {
      var q: nat :| LiveAt(h, v, q, b) && live[b] <= SizeOf(BlockType(h.refs[q]));
      assert LiveAt(g, w, q, b);
    }
  }

  lemma AddGood(h: Heap, v: Lists, live: map<nat, nat>, big: map<nat, nat>, r: nat, page: nat, t: nat,
                inuse: seq<bv32>, mem: map<nat, nat>)
    requires Good(h, v, live, big) && NoEmptyPage(h, v, NONE) && AddOk(h, v, r, page, t, inuse, mem)
    requires Grantable(h, v, big, page, 1)
    ensures Good(Added(h, r, page, t, inuse, mem), AddedLists(v, r, t), live, big)
    ensures NoEmptyPage(Added(h, r, page, t, inuse, mem), AddedLists(v, r, t), r)
  {
    hide ListsOk, PagesOk, PageAddr, BlockType, SizeOf, Blocks, AddOk, LiveOk, NewList, LiveAt;
    AddFresh(h, v, r, page, t, inuse, mem);
    var g, w := Added(h, r, page, t, inuse, mem), AddedLists(v, r, t);
    AddKeeps(h, v, r, page, t, inuse, mem);
    AddPage(h, v, r, page, t, inuse, mem);
    assert Sized(h, v) && Sized(g, w) by { HeapSized(h, v); HeapSized(g, w); }
    forall q: nat, b: nat
      ensures LiveAt(g, w, q, b) <==> LiveAt(h, v, q, b)
    {
      AddLive(h, v, r, page, t, inuse, mem, q, b);
    }
    assert forall q | q in w.all && q != r :: q in v.all && g.refs[q] == h.refs[q];
    LiveKept(h, v, live, g, w);
    AddBig(h, v, big, r, page, g, w);
  }

  lemma AddFresh(h: Heap, v: Lists, r: nat, page: nat, t: nat, inuse: seq<bv32>, mem: map<nat, nat>)
    requires AddOk(h, v, r, page, t, inuse, mem)
    ensures r !in v.all && r < NPAGEREFS && t < NSIZES && Sized(h, v)
  {
  }

  lemma AddBig(h: Heap, v: Lists, big: map<nat, nat>, r: nat, page: nat, g: Heap, w: Lists)
    requires Sized(h, v) && Sized(g, w) && BigOk(h, v, big) && Grantable(h, v, big, page, 1)
    requires r < NPAGEREFS && PageAddr(g.refs[r]) == page
    requires forall q | q in w.all && q != r :: q in v.all && g.refs[q] == h.refs[q]
    ensures BigOk(g, w, big)
  {
    hide PageAddr;
    forall b | b in big
      ensures OwnPages(g, w, b, big[b])
    {
      assert OwnPages(h, v, b, big[b]);
      assert Disjoint(page, 1 * PAGE_SIZE, b, big[b] * PAGE_SIZE);
    }
  }

  lemma DropGood(h: Heap, v: Lists, live: map<nat, nat>, big: map<nat, nat>, r: nat, t: nat, g: Heap)
    requires Good(h, v, live, big) && r in v.all && BlockType(h.refs[r]) == t && t < NSIZES && Dropped(h, v, r, t, g)
    requires h.refs[r].nfree == Blocks(t) && NoEmptyPage(h, v, r)
    ensures Good(g, DroppedLists(v, r, t), live, big) && NoEmptyPage(g, DroppedLists(v, r, t), NONE)
    ensures r !in DroppedLists(v, r, t).all
  {
    hide PageOk, ListsOk, PageAddr, BlockType, SizeOf, Blocks, Without, LiveAt, LiveOk, BigOk;
    var w := DroppedLists(v, r, t);
    DropKeeps(h, v, r, t, g);
    assert NoDup(v.all) by { AllNoDup(h, v); }
    WithoutHas(v.all, r);
    forall q | q in w.all
      ensures PageAddr(g.refs[q]) == PageAddr(h.refs[q]) && BlockType(g.refs[q]) == BlockType(h.refs[q])
    {
      SamePab(h.refs[q], g.refs[q]);
    }
    forall q: nat, b: nat
      ensures LiveAt(g, w, q, b) <==> LiveAt(h, v, q, b)
    {
      DropLive(h, v, r, t, g, q, b);
    }
    LiveKept(h, v, live, g, w);
    BigKept(h, v, g, w, big);
  }

  lemma AllNoDup(h: Heap, v: Lists)
    requires Sized(h, v) && ListsOk(h, v)
    ensures NoDup(v.all)
  {
  }

  /** When no block is in use the heap holds no page and no page reference. */
  lemma NothingLiveNothingHeld(h: Heap, v: Lists, big: map<nat, nat>)
    requires Good(h, v, map[], big) && NoEmptyPage(h, v, NONE)
    ensures v.all == [] && h.allbase == NONE && forall t: nat | t < NSIZES :: h.bases[t] == NONE
    ensures forall r: nat | r < NPAGEREFS :: !Used(h.inuse, r)
  {
    hide PageOk, PageAddr, BlockType, SizeOf, Blocks, Used, LiveAt, BigOk;
    if v.all != [] {
      var a := PageHasLive(h, v, v.all[0]);
      assert false;
    }
    forall t: nat | t < NSIZES
      ensures h.bases[t] == NONE
    {
      assert SameChain(h.refs, h.bases[t], v.bySize[t]);
      FirstIn(v.bySize[t]);
    }
  }

  lemma FirstIn(l: seq<nat>)
    ensures l == [] || l[0] in l
  {
  }

  lemma PageHasLive(h: Heap, v: Lists, r: nat) returns (a: nat)
    requires HeapOk(h, v) && NoEmptyPage(h, v, NONE) && r in v.all
    ensures LiveAt(h, v, r, a)
  {
    hide PageOk, PageAddr, BlockType, SizeOf, Blocks, LiveAt, ListsOk;
    var inUse := LivePlusFree(h, v, r);
    assert inUse != {};
    var o :| o in inUse;
    a := PageAddr(h.refs[r]) + o;
  }
}
