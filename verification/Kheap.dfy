/** The kernel heap: blocks of eight sizes carved out of pages, with free lists kept inside the pages. */
module Kheap {
  import opened Arithmetic
  import opened PageRefs

  const PAGE_SIZE: nat := 4096
  const NSIZES: nat := 8
  const LARGEST_SUBPAGE_SIZE: nat := 2048
  const INVALID_OFFSET: nat := 0xffff
  const WORD_LIMIT: nat := 0x1_0000_0000
  const DEADBEEF: nat := 0xdeadbeef

  /** The null pointer to a page reference; other pointers are indices into pagerefs. */
  const NONE: int := -1

  /** sizes[t]. */
  function SizeOf(t: nat): (z: nat)
    requires t < NSIZES
    ensures 16 <= z <= LARGEST_SUBPAGE_SIZE && PAGE_SIZE % z == 0 && z % 16 == 0
  {
    [16, 32, 64, 128, 256, 512, 1024, 2048][t]
  }

  /** How many blocks of type `t` a page holds. */
  function Blocks(t: nat): (n: nat)
    requires t < NSIZES
    ensures n >= 2 && n * SizeOf(t) == PAGE_SIZE
  {
    PAGE_SIZE / SizeOf(t)
  }

  /** struct pageref. */
  datatype PageRef = PageRef(nextSame: int, nextAll: int, pab: nat, offset: nat, nfree: nat)

  /** MKPAB, and the two halves of what it packs. */
  function MkPab(page: nat, t: nat): nat {
    page - page % PAGE_SIZE + t % PAGE_SIZE
  }

  function PageAddr(pr: PageRef): (a: nat)
    ensures a % PAGE_SIZE == 0
  {
    pr.pab - pr.pab % PAGE_SIZE
  }

  function BlockType(pr: PageRef): nat {
    pr.pab % PAGE_SIZE
  }

  lemma PabRoundTrip(page: nat, t: nat, pr: PageRef)
    requires page % PAGE_SIZE == 0 && t < NSIZES && pr.pab == MkPab(page, t)
    ensures PageAddr(pr) == page && BlockType(pr) == t
  {
  }

  // ----- the heap as a value

  datatype Heap = Heap(refs: seq<PageRef>, inuse: seq<bv32>, bases: seq<int>, allbase: int, mem: map<nat, nat>)

  /** What the pointers mean: the lists that hang together, and the offsets on the free list of each page. */
  datatype Lists = Lists(all: seq<nat>, bySize: seq<seq<nat>>, free: map<nat, seq<nat>>)

  function Load(mem: map<nat, nat>, a: nat): nat {
    if a in mem then mem[a] else 0
  }

  predicate NoDup(l: seq<nat>) {
    forall i: nat, j: nat | i < j < |l| :: l[i] != l[j]
  }

  /** The pointer to element `i` of a list. */
  function Link(l: seq<nat>, i: nat): int {
    if i < |l| then l[i] else NONE
  }

  predicate AllChain(refs: seq<PageRef>, head: int, l: seq<nat>)
    requires |refs| == NPAGEREFS
  {
    head == Link(l, 0) && forall i: nat | i < |l| :: l[i] < NPAGEREFS && refs[l[i]].nextAll == Link(l, i + 1)
  }

  predicate SameChain(refs: seq<PageRef>, head: int, l: seq<nat>)
    requires |refs| == NPAGEREFS
  {
    head == Link(l, 0) && forall i: nat | i < |l| :: l[i] < NPAGEREFS && refs[l[i]].nextSame == Link(l, i + 1)
  }

  /** The offsets of a free list: in the page, on block boundaries, none twice. */
  predicate Offsets(l: seq<nat>, t: nat)
    requires t < NSIZES
  {
    NoDup(l) && forall i: nat | i < |l| :: l[i] < PAGE_SIZE && l[i] % SizeOf(t) == 0
  }

  /** The address stored for element `i` of the free list of the page at `page`: 0 behind the end. */
  function FreePtr(page: nat, l: seq<nat>, i: nat): nat {
    if i < |l| then page + l[i] else 0
  }

  predicate FreeChain(mem: map<nat, nat>, page: nat, offset: nat, l: seq<nat>) {
    && offset == (if l == [] then INVALID_OFFSET else l[0])
    && forall i: nat | i < |l| :: Load(mem, page + l[i]) == FreePtr(page, l, i + 1)
  }

  ghost predicate PageOk(h: Heap, v: Lists, r: nat)
    requires |h.refs| == NPAGEREFS && r < NPAGEREFS
  {
    var pr := h.refs[r];
    && BlockType(pr) < NSIZES && 0 < PageAddr(pr) && PageAddr(pr) + PAGE_SIZE <= WORD_LIMIT
    && r in v.free && pr.nfree == |v.free[r]| <= Blocks(BlockType(pr))
    && Offsets(v.free[r], BlockType(pr)) && FreeChain(h.mem, PageAddr(pr), pr.offset, v.free[r])
  }

  predicate Sized(h: Heap, v: Lists) {
    && |h.refs| == NPAGEREFS && |h.inuse| == INUSE_WORDS && |h.bases| == |v.bySize| == NSIZES
    && forall r | r in v.all :: r < NPAGEREFS
  }

  /** The list of all pages and the lists by size hold the page references in use, each once. */
  ghost predicate ListsOk(h: Heap, v: Lists)
    requires Sized(h, v)
  {
    && AllChain(h.refs, h.allbase, v.all) && NoDup(v.all)
    && (forall t: nat | t < NSIZES :: SameChain(h.refs, h.bases[t], v.bySize[t]) && NoDup(v.bySize[t]))
    && (forall t: nat, r: nat | t < NSIZES :: r in v.bySize[t] <==> r in v.all && BlockType(h.refs[r]) == t)
    && (forall r: nat | r < NPAGEREFS :: Used(h.inuse, r) <==> r in v.all)
  }

  ghost predicate PagesOk(h: Heap, v: Lists)
    requires Sized(h, v) && ListsOk(h, v)
  {
    && (forall r | r in v.all :: PageOk(h, v, r))
    && (forall r, q | r in v.all && q in v.all && r != q :: PageAddr(h.refs[r]) != PageAddr(h.refs[q]))
  }

  ghost predicate HeapOk(h: Heap, v: Lists) {
    Sized(h, v) && ListsOk(h, v) && PagesOk(h, v)
  }

  /** A block that was handed out: on a page, at a block boundary, not on the free list. */
  ghost predicate LiveAt(h: Heap, v: Lists, r: nat, a: nat)
    requires Sized(h, v)
  {
    && r in v.all && r in v.free && BlockType(h.refs[r]) < NSIZES
    && PageAddr(h.refs[r]) <= a < PageAddr(h.refs[r]) + PAGE_SIZE
    && (a - PageAddr(h.refs[r])) % SizeOf(BlockType(h.refs[r])) == 0 && (a - PageAddr(h.refs[r])) !in v.free[r]
  }

  /** No page, except possibly `but`, is without a block in use. */
  ghost predicate NoEmptyPage(h: Heap, v: Lists, but: int)
    requires Sized(h, v)
  {
    forall r | r in v.all && r != but :: BlockType(h.refs[r]) < NSIZES && h.refs[r].nfree < Blocks(BlockType(h.refs[r]))
  }

  /** `live` holds exactly the blocks in use, with the size each was asked for. */
  ghost predicate LiveOk(h: Heap, v: Lists, live: map<nat, nat>)
    requires Sized(h, v)
  {
    && (forall r: nat, a: nat :: LiveAt(h, v, r, a) ==> a in live)
    && (forall a | a in live :: exists r: nat :: LiveAt(h, v, r, a) && live[a] <= SizeOf(BlockType(h.refs[r])))
  }

  /** Pages `p` up to `p + n` are whole, in the address space and none of the heap's. */
  ghost predicate OwnPages(h: Heap, v: Lists, p: nat, n: nat)
    requires Sized(h, v)
  {
    && p % PAGE_SIZE == 0 && 0 < p && p + n * PAGE_SIZE <= WORD_LIMIT
    && forall r | r in v.all :: !(p <= PageAddr(h.refs[r]) < p + n * PAGE_SIZE)
  }

  /** The allocations of whole pages: their addresses and page counts. */
  ghost predicate BigOk(h: Heap, v: Lists, big: map<nat, nat>)
    requires Sized(h, v)
  {
    && (forall b | b in big :: big[b] > 0 && OwnPages(h, v, b, big[b]))
    && (forall b, c | b in big && c in big && b != c :: Disjoint(b, big[b] * PAGE_SIZE, c, big[c] * PAGE_SIZE))
  }

  /** What alloc_kpages may return for `n` pages: pages that nobody has. */
  ghost predicate Grantable(h: Heap, v: Lists, big: map<nat, nat>, p: nat, n: nat)
    requires Sized(h, v)
  {
    OwnPages(h, v, p, n) && forall b | b in big :: Disjoint(p, n * PAGE_SIZE, b, big[b] * PAGE_SIZE)
  }

  ghost predicate Good(h: Heap, v: Lists, live: map<nat, nat>, big: map<nat, nat>) {
    HeapOk(h, v) && LiveOk(h, v, live) && BigOk(h, v, big)
  }

  // ----- blocks never overlap

  /** A block that begins inside a page ends inside it. */
  lemma BlockInPage(o: nat, t: nat)
    requires t < NSIZES && o < PAGE_SIZE && o % SizeOf(t) == 0
    ensures o + SizeOf(t) <= PAGE_SIZE
  {
    MultiplesApart(o, PAGE_SIZE, SizeOf(t));
  }

  /** Two pages are the same or do not touch. */
  lemma PagesApart(p: nat, q: nat)
    requires p % PAGE_SIZE == 0 && q % PAGE_SIZE == 0 && p != q
    ensures p + PAGE_SIZE <= q || q + PAGE_SIZE <= p
  {
    if p < q {
      MultiplesApart(p, q, PAGE_SIZE);
    } else {
      MultiplesApart(q, p, PAGE_SIZE);
    }
  }

  predicate Disjoint(a: nat, m: nat, b: nat, n: nat) {
    a + m <= b || b + n <= a
  }

  lemma OffsetsApart(page: nat, t: nat, o: nat, other: nat, u: nat, p: nat)
    requires t < NSIZES && o < PAGE_SIZE && o % SizeOf(t) == 0 && u < NSIZES && p < PAGE_SIZE && p % SizeOf(u) == 0
    requires page % PAGE_SIZE == 0 && other % PAGE_SIZE == 0 && (if page == other then t == u && o != p else true)
    ensures Disjoint(page + o, SizeOf(t), other + p, SizeOf(u))
  {
    hide SizeOf;
    BlockInPage(o, t);
    BlockInPage(p, u);
    if page != other {
      PagesApart(page, other);
    } else if o < p {
      MultiplesApart(o, p, SizeOf(t));
    } else {
      MultiplesApart(p, o, SizeOf(t));
    }
  }

  /** Blocks at different offsets of one page, or on two pages, do not overlap. */
  lemma BlocksApart(h: Heap, v: Lists, r: nat, o: nat, q: nat, p: nat)
    requires HeapOk(h, v) && r in v.all && q in v.all && (r != q || o != p)
    requires var t := BlockType(h.refs[r]); t < NSIZES && o < PAGE_SIZE && o % SizeOf(t) == 0
    requires var u := BlockType(h.refs[q]); u < NSIZES && p < PAGE_SIZE && p % SizeOf(u) == 0
    ensures Disjoint(PageAddr(h.refs[r]) + o, SizeOf(BlockType(h.refs[r])), PageAddr(h.refs[q]) + p,
            SizeOf(BlockType(h.refs[q])))
  {
    hide SizeOf, PageAddr, BlockType, ListsOk, PageOk;
    OffsetsApart(PageAddr(h.refs[r]), BlockType(h.refs[r]), o, PageAddr(h.refs[q]), BlockType(h.refs[q]), p);
  }

  // ----- what can be written without disturbing the heap

  /** Outside the first words of free blocks memory does not matter to the heap. */
  ghost predicate SameFree(h: Heap, v: Lists, mem': map<nat, nat>)
    requires HeapOk(h, v)
  {
    forall r, i: nat | r in v.all && PageOk(h, v, r) && i < |v.free[r]| ::
      Load(mem', PageAddr(h.refs[r]) + v.free[r][i]) == Load(h.mem, PageAddr(h.refs[r]) + v.free[r][i])
  }

  lemma MemoryFrame(h: Heap, v: Lists, mem': map<nat, nat>)
    requires HeapOk(h, v) && SameFree(h, v, mem')
    ensures HeapOk(h.(mem := mem'), v)
  {
    var g := h.(mem := mem');
    forall r | r in v.all
      ensures PageOk(g, v, r)
    {
      assert PageOk(h, v, r);
    }
  }

  /** A word inside a block in use. */
  ghost predicate InLiveBlock(h: Heap, v: Lists, a: nat)
    requires HeapOk(h, v)
  {
    exists r: nat, b: nat :: r in v.all && LiveAt(h, v, r, b) && BlockType(h.refs[r]) < NSIZES
                             && b <= a < b + SizeOf(BlockType(h.refs[r]))
  }

  /** Whoever has a block may write into it. */
  lemma ClientWrite(h: Heap, v: Lists, a: nat, x: nat)
    requires HeapOk(h, v) && InLiveBlock(h, v, a)
    ensures HeapOk(h.(mem := h.mem[a := x]), v)
  {
    hide SizeOf, PageAddr, BlockType, ListsOk, Offsets, FreeChain;
    forall q, i: nat | q in v.all && PageOk(h, v, q) && i < |v.free[q]|
      ensures PageAddr(h.refs[q]) + v.free[q][i] != a
    {
      FreeNotLive(h, v, a, q, i);
    }
    MemoryFrame(h, v, h.mem[a := x]);
  }

  /** No word of a block in use is the first word of a free block. */
  lemma FreeNotLive(h: Heap, v: Lists, a: nat, q: nat, i: nat)
    requires HeapOk(h, v) && InLiveBlock(h, v, a) && q in v.all && PageOk(h, v, q) && i < |v.free[q]|
    ensures PageAddr(h.refs[q]) + v.free[q][i] != a
  {
    hide SizeOf, PageAddr, BlockType, ListsOk, FreeChain;
    var r: nat, b: nat :| r in v.all && LiveAt(h, v, r, b) && BlockType(h.refs[r]) < NSIZES
                          && b <= a < b + SizeOf(BlockType(h.refs[r]));
    BlocksApart(h, v, r, b - PageAddr(h.refs[r]), q, v.free[q][i]);
  }
}
