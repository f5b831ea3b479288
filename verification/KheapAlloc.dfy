/** The kernel's malloc and free: kmalloc, kfree and the sub-page allocator below them. */
module KheapAlloc {
  import opened Arithmetic
  import opened PageRefs
  import opened Kheap
  import opened KheapSteps

  datatype Outcome = Done | Panicked

  /** Pages asked for by a large kmalloc; the sum is computed in 32 bits. */
  function Npages(sz: nat): nat {
    ((sz + PAGE_SIZE - 1) % WORD_LIMIT) / PAGE_SIZE
  }

  /** The rounding gives room for the request exactly when it does not wrap around. */
  lemma NpagesSuffice(sz: nat)
    requires LARGEST_SUBPAGE_SIZE <= sz < WORD_LIMIT
    ensures Npages(sz) * PAGE_SIZE >= sz <==> sz <= WORD_LIMIT - PAGE_SIZE
    ensures sz <= WORD_LIMIT - PAGE_SIZE ==> Npages(sz) > 0 && (Npages(sz) - 1) * PAGE_SIZE < sz
    ensures sz > WORD_LIMIT - PAGE_SIZE ==> Npages(sz) == 0
  {
  }

  /** The smallest block size that fits. */
  function TypeOf(sz: nat): (t: nat)
    requires sz <= LARGEST_SUBPAGE_SIZE
    ensures t < NSIZES && sz <= SizeOf(t) && forall u: nat | u < t :: SizeOf(u) < sz
  {
    if sz <= 16 then 0 else if sz <= 32 then 1 else if sz <= 64 then 2 else if sz <= 128 then 3
    else if sz <= 256 then 4 else if sz <= 512 then 5 else if sz <= 1024 then 6 else 7
  }

  predicate OnPage(h: Heap, r: nat, a: nat)
    requires |h.refs| == NPAGEREFS && r < NPAGEREFS
  {
    PageAddr(h.refs[r]) <= a < PageAddr(h.refs[r]) + PAGE_SIZE
  }

  /** `a` lies on a page of the heap but not at the start of a block. */
  ghost predicate Misplaced(h: Heap, v: Lists, a: nat)
    requires HeapOk(h, v)
  {
    exists r :: r in v.all && PageOk(h, v, r) && OnPage(h, r, a)
        && (a - PageAddr(h.refs[r])) % SizeOf(BlockType(h.refs[r])) != 0
  }

  ghost predicate OffHeap(h: Heap, v: Lists, a: nat)
    requires HeapOk(h, v)
  {
    forall r | r in v.all :: !OnPage(h, r, a)
  }

  /** What kfree cannot tell from a block in use. */
  ghost predicate OnFreeList(h: Heap, v: Lists, a: nat)
    requires HeapOk(h, v)
  {
    exists r :: r in v.all && PageOk(h, v, r) && OnPage(h, r, a) && (a - PageAddr(h.refs[r])) in v.free[r]
  }

  /** An address in a page of the heap is that of a block in use, of a free block, or of none. */
  lemma AddressKinds(h: Heap, v: Lists, r: nat, a: nat)
    requires HeapOk(h, v) && r in v.all && OnPage(h, r, a) && !OnFreeList(h, v, a)
    ensures PageOk(h, v, r)
    ensures Misplaced(h, v, a) <==> (a - PageAddr(h.refs[r])) % SizeOf(BlockType(h.refs[r])) != 0
    ensures LiveAt(h, v, r, a) <==> !Misplaced(h, v, a)
  {
    hide SizeOf, PageAddr, BlockType, ListsOk, FreeChain, Offsets;
    assert PageOk(h, v, r);
    forall q | q in v.all && OnPage(h, q, a)
      ensures q == r
    {
      if q != r {
        PagesApart(PageAddr(h.refs[r]), PageAddr(h.refs[q]));
      }
    }
  }

  /** A block is aligned to its size. */
  lemma BlockAligned(h: Heap, v: Lists, r: nat, a: nat)
    requires Sized(h, v) && LiveAt(h, v, r, a)
    ensures a % SizeOf(BlockType(h.refs[r])) == 0
  {
    var page, z := PageAddr(h.refs[r]), SizeOf(BlockType(h.refs[r]));
    var n := Multiple(page, PAGE_SIZE);
    var k := Multiple(a - page, z);
    var b := Blocks(BlockType(h.refs[r]));
    assert a == (n * b + k) * z by {
      assert n * PAGE_SIZE == n * (b * z);
      Distribute(n, b, k, z);
    }
    MultipleIs(n * b + k, z);
  }

  lemma Distribute(n: nat, b: nat, k: nat, z: nat)
    ensures (n * b + k) * z == n * (b * z) + k * z
  {
  }

  ghost predicate HasRoom(h: Heap, v: Lists, t: nat)
    requires Sized(h, v) && t < NSIZES
  {
    exists r :: r in v.bySize[t] && r < NPAGEREFS && h.refs[r].nfree > 0
  }

  ghost predicate AllUsed(h: Heap)
    requires |h.inuse| == INUSE_WORDS
  {
    forall q: nat | q < NPAGEREFS :: Used(h.inuse, q)
  }

  /** A block of type `t` is now in use at `p`. */
  ghost predicate Placed(h: Heap, v: Lists, p: nat, t: nat)
    requires Sized(h, v)
  {
    exists r: nat :: LiveAt(h, v, r, p) && BlockType(h.refs[r]) == t
  }

  ghost predicate SameOutside(mem: map<nat, nat>, mem': map<nat, nat>, a: nat, n: nat) {
    forall b: nat | !(a <= b < a + n) :: Load(mem', b) == Load(mem, b)
  }

  lemma LinkAfterFill(mem: map<nat, nat>, filled: map<nat, nat>, page: nat, o: nat, z: nat, l: seq<nat>, x: nat)
    requires Deadened(mem, filled, page + o, z / 4) && z % 4 == 0 && z >= 4 && x == FreePtr(page, l, 0)
    ensures LinkedIn(mem, filled[page + o := x], page, o, z, l)
    ensures SameOutside(mem, filled[page + o := x], page + o, z)
    ensures forall i: nat | 0 < i < z / 4 :: Load(filled[page + o := x], page + o + 4 * i) == DEADBEEF
  {
  }

  // ----- unlinking from a list

  /** `m` is `l` without element `k`: its links are those of `l`, with the one at `k` passed over. */
  lemma WithoutLinks(l: seq<nat>, k: nat, i: nat)
    requires NoDup(l) && k < |l|
    ensures |Without(l, l[k])| == |l| - 1
    ensures Link(Without(l, l[k]), i) == Link(l, if i < k then i else i + 1)
    ensures i < |l| - 1 ==> Without(l, l[k])[i] == (if i < k then l[i] else l[i + 1])
  {
    hide Without;
    WithoutAt(l, k);
  }

  /** Element `k` of a list is bypassed. */
  lemma UnlinkSameChain(refs: seq<PageRef>, head: int, l: seq<nat>, k: nat)
    requires |refs| == NPAGEREFS && SameChain(refs, head, l) && NoDup(l) && k < |l|
    ensures k == 0 ==> SameChain(refs, refs[l[0]].nextSame, Without(l, l[0]))
    ensures k > 0 ==> SameChain(refs[l[k - 1] := refs[l[k - 1]].(nextSame := refs[l[k]].nextSame)], head,
            Without(l, l[k]))
  {
    hide Without, Link, NoDup;
    var m := Without(l, l[k]);
    var g := if k == 0 then refs else refs[l[k - 1] := refs[l[k - 1]].(nextSame := refs[l[k]].nextSame)];
    WithoutLinks(l, k, 0);
    forall i: nat | i < |m|
      ensures m[i] < NPAGEREFS && g[m[i]].nextSame == Link(m, i + 1)
    {
      WithoutLinks(l, k, i);
      WithoutLinks(l, k, i + 1);
      if k > 0 {
        DistinctAt(l, k - 1, if i < k then i else i + 1);
      }
    }
  }

  lemma DistinctAt(l: seq<nat>, i: nat, j: nat)
    requires NoDup(l) && i < |l| && j < |l|
    ensures l[i] == l[j] <==> i == j
  {
  }

  lemma UnlinkAllChain(refs: seq<PageRef>, head: int, l: seq<nat>, k: nat)
    requires |refs| == NPAGEREFS && AllChain(refs, head, l) && NoDup(l) && k < |l|
    ensures k == 0 ==> AllChain(refs, refs[l[0]].nextAll, Without(l, l[0]))
    ensures k > 0 ==> AllChain(refs[l[k - 1] := refs[l[k - 1]].(nextAll := refs[l[k]].nextAll)], head, Without(l, l[k]))
  {
    hide Without, Link, NoDup;
    var m := Without(l, l[k]);
    var g := if k == 0 then refs else refs[l[k - 1] := refs[l[k - 1]].(nextAll := refs[l[k]].nextAll)];
    WithoutLinks(l, k, 0);
    forall i: nat | i < |m|
      ensures m[i] < NPAGEREFS && g[m[i]].nextAll == Link(m, i + 1)
    {
      WithoutLinks(l, k, i);
      WithoutLinks(l, k, i + 1);
      if k > 0 {
        DistinctAt(l, k - 1, if i < k then i else i + 1);
      }
    }
  }

  /** Only the links by size of list members differ. */
  predicate SameButNextSame(refs: seq<PageRef>, refs': seq<PageRef>, l: seq<nat>) {
    && |refs| == |refs'| == NPAGEREFS
    && (forall q: nat | q < NPAGEREFS :: refs'[q] == refs[q].(nextSame := refs'[q].nextSame))
    && (forall q: nat | q < NPAGEREFS && q !in l :: refs'[q] == refs[q])
  }

  predicate SameButNextAll(refs: seq<PageRef>, refs': seq<PageRef>) {
    && |refs| == |refs'| == NPAGEREFS
    && (forall q: nat | q < NPAGEREFS :: refs'[q] == refs[q].(nextAll := refs'[q].nextAll))
  }

  lemma UnlinkSameEffect(refs: seq<PageRef>, head: int, l: seq<nat>, k: nat)
    requires |refs| == NPAGEREFS && k < |l| && SameChain(refs, head, l)
    ensures SameButNextSame(refs, refs, l)
    ensures k > 0 ==> SameButNextSame(refs, refs[l[k - 1] := refs[l[k - 1]].(nextSame := refs[l[k]].nextSame)], l)
  {
  }

  lemma UnlinkAllEffect(refs: seq<PageRef>, head: int, l: seq<nat>, k: nat)
    requires |refs| == NPAGEREFS && k < |l| && AllChain(refs, head, l)
    ensures SameButNextAll(refs, refs)
    ensures k > 0 ==> SameButNextAll(refs, refs[l[k - 1] := refs[l[k - 1]].(nextAll := refs[l[k]].nextAll)])
  {
  }

  lemma LinkIs(l: seq<nat>, i: nat)
    ensures if i < |l| then Link(l, i) == l[i] else Link(l, i) == NONE
  {
  }

  lemma SameStep(refs: seq<PageRef>, head: int, l: seq<nat>, i: nat)
    requires |refs| == NPAGEREFS && SameChain(refs, head, l)
    ensures head == Link(l, 0) && (i < |l| ==> l[i] < NPAGEREFS && refs[l[i]].nextSame == Link(l, i + 1))
  {
  }

  lemma AllStep(refs: seq<PageRef>, head: int, l: seq<nat>, i: nat)
    requires |refs| == NPAGEREFS && AllChain(refs, head, l)
    ensures head == Link(l, 0) && (i < |l| ==> l[i] < NPAGEREFS && refs[l[i]].nextAll == Link(l, i + 1))
  {
  }

  // ----- laying out a page

  /** The link words of the first `i` blocks of a new page. */
  predicate LaidUpTo(mem: map<nat, nat>, page: nat, z: nat, i: nat) {
    forall k: nat | k < i :: Load(mem, page + k * z) == if k == 0 then 0 else page + (k - 1) * z
  }

  /** Block `k` is element `n - 1 - k` of the new free list, and block `k - 1` comes after it. */
  lemma NewListAt(page: nat, n: nat, z: nat, i: nat)
    requires i < n
    ensures NewList(n, z)[i] == (n - 1 - i) * z
    ensures FreePtr(page, NewList(n, z), i + 1) == if i == n - 1 then 0 else page + (n - 1 - i - 1) * z
  {
    if i < n - 1 {
      assert NewList(n, z)[i + 1] == (n - 1 - (i + 1)) * z;
      assert n - 1 - (i + 1) == n - 1 - i - 1;
    }
  }

  lemma LaidIsChain(mem: map<nat, nat>, page: nat, t: nat)
    requires t < NSIZES && LaidUpTo(mem, page, SizeOf(t), Blocks(t))
    ensures FreeChain(mem, page, (Blocks(t) - 1) * SizeOf(t), NewList(Blocks(t), SizeOf(t)))
  {
    hide SizeOf, Blocks, FreePtr, Load;
    var n, z := Blocks(t), SizeOf(t);
    NewListAt(page, n, z, 0);
    forall i: nat | i < n
      ensures Load(mem, page + NewList(n, z)[i]) == FreePtr(page, NewList(n, z), i + 1)
    {
      NewListAt(page, n, z, i);
      LaidAt(mem, page, z, n, n - 1 - i);
    }
  }

  lemma LaidAt(mem: map<nat, nat>, page: nat, z: nat, n: nat, k: nat)
    requires LaidUpTo(mem, page, z, n) && k < n
    ensures Load(mem, page + k * z) == if k == 0 then 0 else page + (k - 1) * z
  {
  }

  lemma LayFirst(mem: map<nat, nat>, page: nat, z: nat)
    ensures LaidUpTo(mem[page := 0], page, z, 1)
  {
    assert 0 * z == 0;
  }

  lemma LayOne(mem: map<nat, nat>, page: nat, z: nat, i: nat)
    requires LaidUpTo(mem, page, z, i) && i > 0 && z > 0
    ensures LaidUpTo(mem[page + i * z := page + (i - 1) * z], page, z, i + 1)
  {
    forall k: nat | k < i
      ensures page + k * z != page + i * z
    {
      ProductOrder(k, i, z);
    }
  }

  // ----- filling a freed block

  /** `len / 4` words from `a` on are 0xdeadbeef; the rest is as before. */
  ghost predicate Deadened(mem: map<nat, nat>, mem': map<nat, nat>, a: nat, words: nat) {
    && (forall i: nat | i < words :: Load(mem', a + 4 * i) == DEADBEEF)
    && (forall b: nat | !(a <= b < a + 4 * words) :: Load(mem', b) == Load(mem, b))
  }

  lemma UsedIs(words: seq<bv32>, i: nat, j: nat)
    requires |words| == INUSE_WORDS && i < INUSE_WORDS && j < 32
    ensures Used(words, 32 * i + j) == HasBit(words[i], j) && (32 * i + j) / 32 == i && (32 * i + j) % 32 == j
  {
  }

  /** The first page of size `t` with a free block. */
  ghost predicate FirstWithRoom(h: Heap, l: seq<nat>, k: nat)
    requires |h.refs| == NPAGEREFS
  {
    k < |l| && (forall i: nat | i <= k :: l[i] < NPAGEREFS) && h.refs[l[k]].nfree > 0
        && forall i: nat | i < k :: h.refs[l[i]].nfree == 0
  }

  lemma PageAbove(h: Heap, v: Lists, r: nat)
    requires HeapOk(h, v) && r in v.all
    ensures PageAddr(h.refs[r]) > 0
  {
    hide ListsOk;
    assert PageOk(h, v, r);
  }

  lemma PageTyped(h: Heap, v: Lists, r: nat)
    requires HeapOk(h, v) && r in v.all
    ensures r < NPAGEREFS && BlockType(h.refs[r]) < NSIZES && h.refs[r].nfree <= Blocks(BlockType(h.refs[r]))
  {
    hide ListsOk;
    assert PageOk(h, v, r);
  }

  lemma ListedPage(h: Heap, v: Lists, t: nat, r: nat)
    requires HeapOk(h, v) && t < NSIZES && r in v.bySize[t]
    ensures r in v.all && r < NPAGEREFS && BlockType(h.refs[r]) == t
  {
  }

  lemma NoneEmptyHere(h: Heap, v: Lists, r: nat)
    requires Sized(h, v) && NoEmptyPage(h, v, NONE)
    ensures NoEmptyPage(h, v, r)
  {
  }

  lemma NoneEmptyAtAll(h: Heap, v: Lists, r: nat)
    requires Sized(h, v) && NoEmptyPage(h, v, r) && r < NPAGEREFS
    requires BlockType(h.refs[r]) < NSIZES && h.refs[r].nfree < Blocks(BlockType(h.refs[r]))
    ensures NoEmptyPage(h, v, NONE)
  {
  }

  lemma FreshIsUnlisted(h: Heap, v: Lists, r: nat)
    requires Sized(h, v) && ListsOk(h, v) && r < NPAGEREFS && !Used(h.inuse, r)
    ensures r !in v.all
  {
  }

  lemma GrantIsNew(h: Heap, v: Lists, page: nat)
    requires Sized(h, v) && OwnPages(h, v, page, 1)
    ensures NewPage(h, v, page)
  {
    hide PageAddr;
  }

  /** An empty free list is marked by the invalid offset. */
  lemma OffsetOfPage(h: Heap, v: Lists, r: nat)
    requires HeapOk(h, v) && r in v.all && r in v.free
    ensures h.refs[r].offset == INVALID_OFFSET <==> v.free[r] == []
    ensures FreePtr(PageAddr(h.refs[r]), v.free[r], 0) == if h.refs[r].offset == INVALID_OFFSET then 0
            else PageAddr(h.refs[r]) + h.refs[r].offset
  {
    hide ListsOk, PageAddr, SizeOf, BlockType;
    assert PageOk(h, v, r);
  }

  /** Unlinking from a list by size leaves the list of all pages and the other lists by size alone. */
  lemma RemovalKeepsAll(h: Heap, v: Lists, refs1: seq<PageRef>, l: seq<nat>)
    requires Sized(h, v) && ListsOk(h, v) && SameButNextSame(h.refs, refs1, l)
    ensures |refs1| == NPAGEREFS && AllChain(refs1, h.allbase, v.all)
  {
    hide SameChain, Used, NoDup;
  }

  lemma ReadyToDrop(h: Heap, v: Lists, r: nat, t: nat)
    requires Sized(h, v) && ListsOk(h, v) && r in v.all && BlockType(h.refs[r]) == t && t < NSIZES
    ensures r in v.bySize[t] && NoDup(v.bySize[t]) && NoDup(v.all) && Used(h.inuse, r)
    ensures SameChain(h.refs, h.bases[t], v.bySize[t]) && AllChain(h.refs, h.allbase, v.all)
  {
  }

  lemma RemovalsDrop(h: Heap, v: Lists, r: nat, t: nat, refs1: seq<PageRef>, g: Heap)
    requires HeapOk(h, v) && r in v.all && t < NSIZES
    requires SameButNextSame(h.refs, refs1, v.bySize[t]) && SameButNextAll(refs1, g.refs) && g.mem == h.mem
    requires |g.bases| == NSIZES && forall u: nat | u < NSIZES && u != t :: g.bases[u] == h.bases[u]
    requires SameChain(refs1, g.bases[t], Without(v.bySize[t], r)) && AllChain(g.refs, g.allbase, Without(v.all, r))
    requires |g.inuse| == INUSE_WORDS
    requires forall q: nat | q < NPAGEREFS :: Used(g.inuse, q) <==> q != r && Used(h.inuse, q)
    ensures Dropped(h, v, r, t, g)
  {
    hide PagesOk, Used, NoDup, Without, Link, AllChain, BlockType;
    forall u: nat | u < NSIZES && u != t
      ensures SameChain(g.refs, g.bases[u], v.bySize[u])
    {
      OtherSizeKept(h, v, t, refs1, g, u);
    }
  }

  lemma OtherSizeKept(h: Heap, v: Lists, t: nat, refs1: seq<PageRef>, g: Heap, u: nat)
    requires Sized(h, v) && ListsOk(h, v) && t < NSIZES && u < NSIZES && u != t
    requires SameButNextSame(h.refs, refs1, v.bySize[t]) && SameButNextAll(refs1, g.refs)
    requires |g.bases| == NSIZES && g.bases[u] == h.bases[u]
    ensures SameChain(g.refs, g.bases[u], v.bySize[u])
  {
    hide Used, NoDup, Link, AllChain, BlockType;
    assert SameChain(h.refs, h.bases[u], v.bySize[u]);
    forall q: nat | q in v.bySize[u]
      ensures q !in v.bySize[t]
    {
      assert q in v.bySize[u] <==> q in v.all && BlockType(h.refs[q]) == u;
      assert q in v.bySize[t] <==> q in v.all && BlockType(h.refs[q]) == t;
    }
  }

  lemma OffHeapNotMisplaced(h: Heap, v: Lists, a: nat)
    requires HeapOk(h, v) && OffHeap(h, v, a)
    ensures !Misplaced(h, v, a)
  {
  }

  /** The page of `a` has left the heap exactly when `a` was its last block in use. */
  ghost predicate Returned(h: Heap, v: Lists, g: Heap, w: Lists, a: nat)
    requires HeapOk(h, v)
  {
    exists r :: r in v.all && LiveAt(h, v, r, a)
                && w.all == (if h.refs[r].nfree + 1 == Blocks(BlockType(h.refs[r])) then Without(v.all, r) else v.all)
  }

  lemma BigAdded(h: Heap, v: Lists, big: map<nat, nat>, p: nat, n: nat)
    requires Sized(h, v) && BigOk(h, v, big) && Grantable(h, v, big, p, n) && n > 0
    ensures BigOk(h, v, big[p := n])
  {
    hide OwnPages;
  }

  lemma BigRemoved(h: Heap, v: Lists, big: map<nat, nat>, p: nat)
    requires Sized(h, v) && BigOk(h, v, big)
    ensures BigOk(h, v, big - {p})
  {
    hide OwnPages;
  }

  /** Blocks in use lie on pages of the heap; whole-page allocations and the null pointer do not. */
  lemma Routes(h: Heap, v: Lists, live: map<nat, nat>, big: map<nat, nat>, a: nat)
    requires Good(h, v, live, big)
    ensures a in live ==> !OffHeap(h, v, a) && !Misplaced(h, v, a) && a !in big && a != 0
    ensures a in big ==> OffHeap(h, v, a) && a % PAGE_SIZE == 0 && a != 0
    ensures a == 0 ==> OffHeap(h, v, a) && !Misplaced(h, v, a)
  {
    hide SizeOf, PageAddr, BlockType, ListsOk, PagesOk, Misplaced, LiveAt, OwnPages;
    if a in big {
      BigOffHeap(h, v, a, big[a]);
    }
    if a in live {
      var r: nat :| LiveAt(h, v, r, a);
      LiveNotMisplaced(h, v, r, a);
    }
    if a == 0 {
      forall r | r in v.all
        ensures !OnPage(h, r, a)
      {
        PageAbove(h, v, r);
      }
      OffHeapNotMisplaced(h, v, a);
    }
  }

  lemma BigOffHeap(h: Heap, v: Lists, a: nat, n: nat)
    requires HeapOk(h, v) && OwnPages(h, v, a, n) && n > 0
    ensures OffHeap(h, v, a) && a % PAGE_SIZE == 0 && a != 0
  {
    hide ListsOk, PageOk, PageAddr;
    forall r | r in v.all
      ensures !OnPage(h, r, a)
    {
      if OnPage(h, r, a) && PageAddr(h.refs[r]) != a {
        PagesApart(PageAddr(h.refs[r]), a);
      }
    }
  }

  lemma LiveNotMisplaced(h: Heap, v: Lists, r: nat, a: nat)
    requires HeapOk(h, v) && LiveAt(h, v, r, a)
    ensures !Misplaced(h, v, a) && !OnFreeList(h, v, a) && !OffHeap(h, v, a) && a > 0
  {
    hide SizeOf, PageAddr, BlockType, ListsOk, FreeChain, Offsets;
    PageAbove(h, v, r);
    assert OnPage(h, r, a);
    forall q | q in v.all && OnPage(h, q, a)
      ensures q == r
    {
      if q != r {
        PagesApart(PageAddr(h.refs[r]), PageAddr(h.refs[q]));
      }
    }
  }

  class KernelHeap {
    var refs: seq<PageRef>
    var inuse: seq<bv32>
    var bases: seq<int>
    var allbase: int
    var mem: map<nat, nat>

    /** What the lists hold, the blocks handed out and the page allocations handed out. */
    ghost var v: Lists
    ghost var live: map<nat, nat>
    ghost var big: map<nat, nat>

    ghost function H(): Heap
      reads this
    {
      Heap(refs, inuse, bases, allbase, mem)
    }

    ghost predicate Valid()
      reads this
    {
      Good(H(), v, live, big) && NoEmptyPage(H(), v, NONE)
    }

    /** The heap at boot: everything is zero. */
    constructor (memory: map<nat, nat>)
      ensures Valid() && v.all == [] && live == map[] && big == map[] && mem == memory
    {
      refs := seq(NPAGEREFS, i => PageRef(NONE, NONE, 0, 0, 0));
      inuse := seq(INUSE_WORDS, i => 0);
      bases := seq(NSIZES, i => NONE);
      allbase := NONE;
      mem := memory;
      v := Lists([], seq(NSIZES, i => []), map[]);
      live := map[];
      big := map[];
      new;
      forall r: nat | r < NPAGEREFS
        ensures !Used(inuse, r)
      {
        assert inuse[r / 32] == 0;
      }
    }

    /** Claims the first page reference that is not in use, if there is one. */
    method AllocPageRef() returns (r: int)
      requires |inuse| == INUSE_WORDS
      modifies `inuse
      ensures |inuse| == INUSE_WORDS && (r == NONE || 0 <= r < NPAGEREFS)
      ensures r == NONE <==> forall q: nat | q < NPAGEREFS :: Used(old(inuse), q)
      ensures r == NONE ==> inuse == old(inuse)
      ensures r != NONE ==> !Used(old(inuse), r) && (forall q: nat | q < r :: Used(old(inuse), q))
                            && inuse == Claimed(old(inuse), r)
    {
      hide SetIn, HasBit, Used;
      var i := 0;
      while i < INUSE_WORDS
        invariant i <= INUSE_WORDS && inuse == old(inuse)
        invariant forall q: nat | q < 32 * i :: Used(inuse, q)
      {
        if inuse[i] == FULL {
          forall q: nat | 32 * i <= q < 32 * (i + 1)
            ensures Used(inuse, q)
          {
            FullHasAll(q % 32);
            UsedIs(inuse, i, q - 32 * i);
          }
          i := i + 1;
          continue;
        }
        var j := FirstClear(inuse[i]);
        r := 32 * i + j;
        UsedIs(inuse, i, j);
        forall q: nat | 32 * i <= q < r
          ensures Used(inuse, q)
        {
          UsedIs(inuse, i, q - 32 * i);
        }
        inuse := inuse[i := SetIn(inuse[i], j)];
        assert inuse == Claimed(old(inuse), r);
        return;
      }
      r := NONE;
    }

    method FreePageRef(r: nat)
      requires |inuse| == INUSE_WORDS && r < NPAGEREFS && Used(inuse, r)
      modifies `inuse
      ensures inuse == Released(old(inuse), r)
    {
      hide ClearIn, Used;
      inuse := inuse[r / 32 := ClearIn(inuse[r / 32], r % 32)];
    }

    method TypeFor(sz: nat) returns (t: nat)
      requires sz <= LARGEST_SUBPAGE_SIZE
      ensures t == TypeOf(sz)
    {
      t := 0;
      while t < NSIZES
        invariant t <= NSIZES && forall u: nat | u < t :: SizeOf(u) < sz
        invariant t == NSIZES ==> LARGEST_SUBPAGE_SIZE < sz
      {
        if sz <= SizeOf(t) {
          return;
        }
        t := t + 1;
      }
      assert false;
    }

    /** Unlinks `r` from the list of its size. */
    method RemoveSame(r: nat, t: nat, ghost l: seq<nat>)
      requires |refs| == NPAGEREFS && |bases| == NSIZES && t < NSIZES && SameChain(refs, bases[t], l) && NoDup(l)
               && r in l
      modifies `refs, `bases
      ensures SameButNextSame(old(refs), refs, l) && |bases| == NSIZES
      ensures forall u: nat | u < NSIZES && u != t :: bases[u] == old(bases)[u]
      ensures SameChain(refs, bases[t], Without(l, r))
    {
      hide Without, NoDup, SameButNextSame, Link, SameChain;
      SameStep(refs, bases[t], l, 0);
      LinkIs(l, 0);
      var prev, cur := NONE, bases[t];
      ghost var i := 0;
      while cur != NONE
        invariant refs == old(refs) && bases == old(bases) && i <= |l| && cur == Link(l, i)
        invariant prev == (if i == 0 then NONE else l[i - 1]) && prev < NPAGEREFS && forall j: nat | j < i :: l[j] != r
        decreases |l| - i
      {
        LinkIs(l, i);
        SameStep(refs, bases[t], l, i);
        LinkIs(l, i + 1);
        if cur == r {
          UnlinkSameEffect(refs, bases[t], l, i);
          UnlinkSameChain(refs, bases[t], l, i);
          if prev == NONE {
            bases := bases[t := refs[r].nextSame];
          } else {
            refs := refs[prev := refs[prev].(nextSame := refs[r].nextSame)];
          }
          return;
        }
        prev := cur;
        cur := refs[cur].nextSame;
        i := i + 1;
      }
      LinkIs(l, i);
      assert false;
    }

    /** Unlinks `r` from the list of all pages. */
    method RemoveAll(r: nat, ghost l: seq<nat>)
      requires |refs| == NPAGEREFS && AllChain(refs, allbase, l) && NoDup(l) && r in l
      modifies `refs, `allbase
      ensures SameButNextAll(old(refs), refs) && AllChain(refs, allbase, Without(l, r))
    {
      hide Without, NoDup, SameButNextAll, Link, AllChain;
      AllStep(refs, allbase, l, 0);
      LinkIs(l, 0);
      var prev, cur := NONE, allbase;
      ghost var i := 0;
      while cur != NONE
        invariant refs == old(refs) && allbase == old(allbase) && i <= |l| && cur == Link(l, i)
        invariant prev == (if i == 0 then NONE else l[i - 1]) && prev < NPAGEREFS && forall j: nat | j < i :: l[j] != r
        decreases |l| - i
      {
        LinkIs(l, i);
        AllStep(refs, allbase, l, i);
        LinkIs(l, i + 1);
        if cur == r {
          UnlinkAllEffect(refs, allbase, l, i);
          UnlinkAllChain(refs, allbase, l, i);
          if prev == NONE {
            allbase := refs[r].nextAll;
          } else {
            refs := refs[prev := refs[prev].(nextAll := refs[r].nextAll)];
          }
          return;
        }
        prev := cur;
        cur := refs[cur].nextAll;
        i := i + 1;
      }
      LinkIs(l, i);
      assert false;
    }

    /** The search of subpage_kmalloc for a page of size `t` with a free block. */
    method FindPage(t: nat) returns (r: int)
      requires Sized(H(), v) && ListsOk(H(), v) && t < NSIZES
      ensures r == NONE || exists k: nat :: FirstWithRoom(H(), v.bySize[t], k) && r == v.bySize[t][k]
      ensures r == NONE ==> forall q | q in v.bySize[t] :: q < NPAGEREFS && refs[q].nfree == 0
    {
      hide NoDup, AllChain, Used, BlockType, SameChain, Link;
      ghost var l := v.bySize[t];
      assert SameChain(refs, bases[t], l);
      SameStep(refs, bases[t], l, 0);
      LinkIs(l, 0);
      r := bases[t];
      ghost var i := 0;
      while r != NONE
        invariant i <= |l| && r == Link(l, i) && forall j: nat | j < i :: l[j] < NPAGEREFS && refs[l[j]].nfree == 0
        decreases |l| - i
      {
        LinkIs(l, i);
        SameStep(refs, bases[t], l, i);
        LinkIs(l, i + 1);
        if refs[r].nfree > 0 {
          assert FirstWithRoom(H(), l, i);
          return;
        }
        r := refs[r].nextSame;
        i := i + 1;
      }
      LinkIs(l, i);
    }

    /** Takes the first block off the free list of a page: the code behind the label doalloc. */
    method TakeBlock(r: nat) returns (p: nat)
      requires HeapOk(H(), v) && r in v.all && refs[r].nfree > 0
      modifies `refs, `v
      ensures r in old(v).free && old(v).free[r] != [] && p == PageAddr(old(refs)[r]) + old(v).free[r][0]
      ensures H() == Popped(old(H()), r, old(v).free[r]) && v == PoppedLists(old(v), r)
    {
      hide ListsOk, PageAddr, BlockType, SizeOf, Blocks;
      assert PageOk(H(), v, r);
      ghost var l := v.free[r];
      assert refs[r].offset < PAGE_SIZE;
      var page := PageAddr(refs[r]);
      p := page + refs[r].offset;
      var next := Load(mem, p);
      assert next == FreePtr(page, l, 1);
      refs := refs[r := refs[r].(nfree := refs[r].nfree - 1)];
      if next != 0 {
        assert refs[r].nfree > 0 && 0 <= next - page < PAGE_SIZE;
        refs := refs[r := refs[r].(offset := next - page)];
      } else {
        assert refs[r].nfree == 0;
        refs := refs[r := refs[r].(offset := INVALID_OFFSET)];
      }
      v := PoppedLists(v, r);
    }

    /** Builds the free list of a new page. */
    method LayOut(page: nat, t: nat)
      requires t < NSIZES
      modifies `mem
      ensures LaidOut(old(mem), mem, page, t)
    {
      hide SizeOf, Blocks, NewList, FreeChain;
      var z, n := SizeOf(t), Blocks(t);
      LayFirst(mem, page, z);
      mem := mem[page := 0];
      var i := 1;
      while i < n
        invariant 1 <= i <= n && LaidUpTo(mem, page, z, i)
        invariant forall a: nat | !(page <= a < page + PAGE_SIZE) :: Load(mem, a) == Load(old(mem), a)
      {
        ProductOrder(i, n, z);
        LayOne(mem, page, z, i);
        mem := mem[page + i * z := page + (i - 1) * z];
        i := i + 1;
      }
      LaidIsChain(mem, page, t);
    }

    method FillDeadbeef(a: nat, len: nat)
      modifies `mem
      ensures Deadened(old(mem), mem, a, len / 4)
    {
      var i := 0;
      while i < len / 4
        invariant i <= len / 4 && Deadened(old(mem), mem, a, i)
      {
        mem := mem[a + 4 * i := DEADBEEF];
        i := i + 1;
      }
    }

    /** The code of subpage_kmalloc that takes a block from page `r`. */
    method TakeFrom(r: nat, sz: nat) returns (p: nat)
      requires Good(H(), v, live, big) && NoEmptyPage(H(), v, r) && r in v.all && refs[r].nfree > 0
      requires BlockType(refs[r]) < NSIZES && sz <= SizeOf(BlockType(refs[r]))
      modifies `refs, `v, `live
      ensures Valid() && v.all == old(v).all && p > 0 && p !in old(live) && live == old(live)[p := sz]
      ensures Placed(H(), v, p, BlockType(old(refs)[r]))
    {
      hide ListsOk, PagesOk, LiveOk, BigOk, PageAddr, BlockType, SizeOf, Blocks, NoEmptyPage, LiveAt;
      ghost var h, lists := H(), v;
      p := TakeBlock(r);
      PopGood(h, lists, live, big, r, sz);
      live := live[p := sz];
      assert BlockType(refs[r]) == BlockType(h.refs[r]) by { SamePab(refs[r], h.refs[r]); }
      PageAbove(h, lists, r);
    }

    /** The code of subpage_kmalloc that puts a new page of type `t` on the lists. */
    method AddNewPage(r: nat, page: nat, t: nat, ghost before: seq<bv32>)
      requires |before| == |inuse| == INUSE_WORDS && r < NPAGEREFS && !Used(before, r) && inuse == Claimed(before, r)
      requires Good(H().(inuse := before), v, live, big) && NoEmptyPage(H().(inuse := before), v, NONE)
      requires t < NSIZES && Grantable(H().(inuse := before), v, big, page, 1)
      modifies `refs, `bases, `allbase, `mem, `v
      ensures Good(H(), v, live, big) && NoEmptyPage(H(), v, r)
      ensures v.all == [r] + old(v).all && refs[r].nfree == Blocks(t) && BlockType(refs[r]) == t
      ensures SameOutside(old(mem), mem, page, PAGE_SIZE)
    {
      hide ListsOk, PagesOk, LiveOk, BigOk, PageAddr, BlockType, SizeOf, Blocks, Used, NoEmptyPage, NewList,
        FreeChain, Claimed;
      ghost var h := H().(inuse := before);
      LayOut(page, t);
      var pr := PageRef(bases[t], allbase, MkPab(page, t), (Blocks(t) - 1) * SizeOf(t), Blocks(t));
      refs := refs[r := pr];
      bases := bases[t := r];
      allbase := r;
      ghost var lists := v;
      v := AddedLists(v, r, t);
      assert H() == Added(h, r, page, t, inuse, mem);
      UseOne(before, r);
      FreshIsUnlisted(h, lists, r);
      GrantIsNew(h, lists, page);
      AddGood(h, lists, live, big, r, page, t, inuse, mem);
      AddPage(h, lists, r, page, t, inuse, mem);
    }

    /** `grant` is what alloc_kpages(1) returns if it is called: 0 or the address of a page. */
    method SubpageKmalloc(sz: nat, grant: nat) returns (p: nat)
      requires Valid() && sz <= LARGEST_SUBPAGE_SIZE
      requires grant == 0 || Grantable(H(), v, big, grant, 1)
      modifies this
      ensures Valid() && big == old(big)
      ensures p == 0 <==> old(!HasRoom(H(), v, TypeOf(sz)) && (AllUsed(H()) || grant == 0))
      ensures p == 0 ==> H() == old(H()) && v == old(v) && live == old(live)
      ensures p != 0 ==> p !in old(live) && live == old(live)[p := sz] && Placed(H(), v, p, TypeOf(sz))
      ensures SameOutside(old(mem), mem, grant, PAGE_SIZE)
      ensures old(HasRoom(H(), v, TypeOf(sz))) ==> mem == old(mem) && v.all == old(v).all
    {
      hide ListsOk, PagesOk, LiveOk, BigOk, PageAddr, BlockType, SizeOf, Blocks, NoEmptyPage, LiveAt, Used, Claimed,
        Released, TypeOf, Placed, Grantable;
      var t := TypeFor(sz);
      var r := FindPage(t);
      if r != NONE {
        ListedPage(H(), v, t, r);
        NoneEmptyHere(H(), v, r);
        p := TakeFrom(r, sz);
        return;
      }
      assert !HasRoom(H(), v, t);
      r := AllocPageRef();
      if r == NONE {
        p := 0;
        return;
      }
      UseOne(old(inuse), r);
      if grant == 0 {
        ClaimThenRelease(old(inuse), r);
        FreePageRef(r);
        p := 0;
        return;
      }
      AddNewPage(r, grant, t, old(inuse));
      p := TakeFrom(r, sz);
    }

    /** The page that `a` lies on. */
    method FindOwner(a: nat) returns (r: int)
      requires HeapOk(H(), v)
      ensures r == NONE <==> OffHeap(H(), v, a)
      ensures r != NONE ==> r in v.all && OnPage(H(), r, a)
    {
      hide NoDup, SameChain, Used, PageAddr, PagesOk, AllChain, Link;
      ghost var l := v.all;
      AllStep(refs, allbase, l, 0);
      LinkIs(l, 0);
      r := allbase;
      ghost var i := 0;
      while r != NONE
        invariant i <= |l| && r == Link(l, i) && forall j: nat | j < i :: l[j] < NPAGEREFS && !OnPage(H(), l[j], a)
        decreases |l| - i
      {
        LinkIs(l, i);
        AllStep(refs, allbase, l, i);
        LinkIs(l, i + 1);
        if PageAddr(refs[r]) <= a < PageAddr(refs[r]) + PAGE_SIZE {
          assert OnPage(H(), r, a);
          return;
        }
        r := refs[r].nextAll;
        i := i + 1;
      }
      LinkIs(l, i);
    }

    /** The code of subpage_kfree that fills the block and puts it on the free list of its page. */
    method PushBlock(a: nat, r: nat)
      requires Valid() && r < NPAGEREFS && LiveAt(H(), v, r, a)
      modifies `mem, `refs, `v, `live
      ensures Good(H(), v, live, big) && NoEmptyPage(H(), v, r) && v.all == old(v).all && v.bySize == old(v).bySize
      ensures a in old(live) && live == old(live) - {a}
      ensures refs[r].nfree == old(refs)[r].nfree + 1 && refs[r].pab == old(refs)[r].pab
      ensures SameOutside(old(mem), mem, a, SizeOf(BlockType(old(refs)[r])))
      ensures forall i: nat | 0 < i < SizeOf(BlockType(old(refs)[r])) / 4 :: Load(mem, a + 4 * i) == DEADBEEF
    {
      hide ListsOk, PagesOk, LiveOk, BigOk, PageAddr, BlockType, SizeOf, Blocks, NoEmptyPage, LinkedIn, Deadened;
      ghost var h, lists, l := H(), v, v.free[r];
      var page := PageAddr(refs[r]);
      var z := SizeOf(BlockType(refs[r]));
      var offset := a - page;
      OffsetOfPage(h, lists, r);
      FillDeadbeef(a, z);
      ghost var filled := mem;
      mem := mem[a := if refs[r].offset == INVALID_OFFSET then 0 else page + refs[r].offset];
      LinkAfterFill(h.mem, filled, page, offset, z, l, mem[a]);
      refs := refs[r := refs[r].(offset := offset, nfree := refs[r].nfree + 1)];
      v := PushedLists(v, r, offset);
      live := live - {a};
      assert H() == Pushed(h, r, offset, mem);
      PushGood(h, lists, old(live), big, r, offset, mem);
    }

    /** The code of subpage_kfree that gives a page back. */
    method DropPage(r: nat, t: nat)
      requires Good(H(), v, live, big) && NoEmptyPage(H(), v, r) && r in v.all
      requires BlockType(refs[r]) == t && t < NSIZES && refs[r].nfree == Blocks(t)
      modifies `refs, `bases, `allbase, `inuse, `v
      ensures Valid() && v.all == Without(old(v).all, r) && r !in v.all && !Used(inuse, r)
    {
      hide ListsOk, PagesOk, LiveOk, BigOk, PageAddr, SizeOf, Blocks, NoEmptyPage, Used, Without, Released,
        BlockType, SameChain, AllChain, SameButNextSame, SameButNextAll, Dropped, NoDup, LiveAt;
      ghost var h := H();
      ReadyToDrop(h, v, r, t);
      RemoveSame(r, t, v.bySize[t]);
      RemovalKeepsAll(h, v, refs, v.bySize[t]);
      ghost var refs1 := refs;
      RemoveAll(r, v.all);
      FreePageRef(r);
      FreeOne(h.inuse, r);
      RemovalsDrop(h, v, r, t, refs1, H());
      DropGood(h, v, live, big, r, t, H());
      v := DroppedLists(v, r, t);
    }

    /** Returns -1 when no page of the heap holds `a`. */
    method SubpageKfree(a: nat) returns (rc: int, out: Outcome)
      requires Valid() && !OnFreeList(H(), v, a)
      modifies this
      ensures Valid() && big == old(big)
      ensures rc == -1 <==> old(OffHeap(H(), v, a))
      ensures out.Panicked? <==> old(Misplaced(H(), v, a))
      ensures rc == -1 || out.Panicked? ==> H() == old(H()) && v == old(v) && live == old(live)
      ensures rc != -1 && out.Done? ==>
                a in old(live) && live == old(live) - {a}
                && SameOutside(old(mem), mem, a, LARGEST_SUBPAGE_SIZE)
      ensures rc != -1 && out.Done? ==> Returned(old(H()), old(v), H(), v, a)
    {
      hide ListsOk, PagesOk, LiveOk, BigOk, PageAddr, BlockType, SizeOf, Blocks, NoEmptyPage, LiveAt, Used,
        Misplaced, OnFreeList;
      out := Done;
      var r := FindOwner(a);
      if r == NONE {
        OffHeapNotMisplaced(H(), v, a);
        rc := -1;
        return;
      }
      rc := 0;
      AddressKinds(H(), v, r, a);
      var t := BlockType(refs[r]);
      PageTyped(H(), v, r);
      if (a - PageAddr(refs[r])) % SizeOf(t) != 0 {
        out := Panicked;
        return;
      }
      PushBlock(a, r);
      SamePab(refs[r], old(refs)[r]);
      PageTyped(H(), v, r);
      assert refs[r].nfree <= Blocks(t);
      if refs[r].nfree == Blocks(t) {
        DropPage(r, t);
      } else {
        NoneEmptyAtAll(H(), v, r);
      }
    }

    /** `grant` is what alloc_kpages returns if it is called: 0 or the address of that many free pages. */
    method Kmalloc(sz: nat, grant: nat) returns (p: nat)
      requires Valid() && sz < WORD_LIMIT
      requires grant == 0 || Grantable(H(), v, big, grant, if sz >= LARGEST_SUBPAGE_SIZE then Npages(sz) else 1)
      modifies this
      ensures Valid()
      ensures sz >= LARGEST_SUBPAGE_SIZE ==> p == grant && H() == old(H()) && v == old(v) && live == old(live)
      ensures sz >= LARGEST_SUBPAGE_SIZE ==>
                big == if p == 0 || Npages(sz) == 0 then old(big) else old(big)[p := Npages(sz)]
      ensures sz < LARGEST_SUBPAGE_SIZE ==> big == old(big)
      ensures sz < LARGEST_SUBPAGE_SIZE ==>
                (p == 0 <==> old(!HasRoom(H(), v, TypeOf(sz)) && (AllUsed(H()) || grant == 0)))
      ensures sz < LARGEST_SUBPAGE_SIZE && p == 0 ==> H() == old(H()) && v == old(v) && live == old(live)
      ensures sz < LARGEST_SUBPAGE_SIZE && p != 0 ==>
                p !in old(live) && live == old(live)[p := sz] && Placed(H(), v, p, TypeOf(sz))
      ensures sz < LARGEST_SUBPAGE_SIZE ==> SameOutside(old(mem), mem, grant, PAGE_SIZE)
    {
      hide ListsOk, PagesOk, LiveOk, SizeOf, Blocks, NoEmptyPage, LiveAt, HasRoom, AllUsed, Placed, BigOk, Grantable;
      if sz >= LARGEST_SUBPAGE_SIZE {
        var npages := Npages(sz);
        p := grant;
        if p != 0 && npages > 0 {
          BigAdded(H(), v, big, p, npages);
          big := big[p := npages];
        }
        return;
      }
      p := SubpageKmalloc(sz, grant);
    }

    method Kfree(a: nat) returns (out: Outcome)
      requires Valid() && !OnFreeList(H(), v, a) && (OffHeap(H(), v, a) && a % PAGE_SIZE == 0 && a != 0 ==> a in big)
      modifies this
      ensures Valid()
      ensures out.Panicked? <==> old(Misplaced(H(), v, a)) || (old(OffHeap(H(), v, a)) && a % PAGE_SIZE != 0)
      ensures out.Panicked? || a == 0 ==> H() == old(H()) && v == old(v) && live == old(live) && big == old(big)
      ensures a in old(live) ==> out.Done? && live == old(live) - {a} && big == old(big)
                                 && SameOutside(old(mem), mem, a, LARGEST_SUBPAGE_SIZE)
                                 && Returned(old(H()), old(v), H(), v, a)
      ensures a in old(big) ==>
                out.Done? && big == old(big) - {a} && H() == old(H()) && v == old(v)
                && live == old(live)
    {
      hide ListsOk, PagesOk, LiveOk, SizeOf, Blocks, NoEmptyPage, LiveAt, OffHeap, Misplaced, OnFreeList, Returned,
        SameOutside, BigOk;
      Routes(H(), v, live, big, a);
      if a == 0 {
        out := Done;
        return;
      }
      var rc: int;
      rc, out := SubpageKfree(a);
      if rc == -1 {
        OffHeapNotMisplaced(H(), v, a);
        if a % PAGE_SIZE != 0 {
          out := Panicked;
          return;
        }
        BigRemoved(H(), v, big, a);
        big := big - {a};
      }
    }
  }
}
