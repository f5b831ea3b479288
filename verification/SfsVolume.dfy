/** Space allocation and the block map: sfs_balloc, sfs_bfree, sfs_bmap. */
module SfsVolume {
  import opened SfsLayout
  import opened SfsTree
  import opened SfsMap
  import opened Bitmap
  import opened Errno

  /** sfs.h: struct sfs_vnode, with the reference count of the vnode it embeds. */
  class SfsVnode {
    const ino: nat
    var inode: Inode
    var dirty: bool
    var refcount: nat

    constructor (ino: nat, inode: Inode, dirty: bool)
      ensures this.ino == ino && this.inode == inode && this.dirty == dirty && refcount == 1
    {
      this.ino := ino;
      this.inode := inode;
      this.dirty := dirty;
      this.refcount := 1;
    }
  }

  datatype BlockResult = Block(block: nat) | Failed(e: Errno) | OutOfBounds

  /** The freemap in memory, with the flag that it differs from the disk. */
  datatype FreeMap = FreeMap(bits: seq<bv8>, dirty: bool)

  /** The dirty flag is not lost, and while it is not set no bit has changed. */
  predicate MapKept(m: FreeMap, n: FreeMap) {
    (m.dirty ==> n.dirty) && |n.bits| == |m.bits| && (!n.dirty ==> n.bits == m.bits)
  }

  /** The disk, its owners, the freemap, and one inode in memory with its dirty flag, at one moment. */
  datatype Snap = Snap(disk: Disk, owner: Owner, freemap: FreeMap, inode: Inode, dirty: bool) {
    ghost predicate Ok(ino: nat) {
      inode.Shape() && TreeOk(ImageOf(disk), owner, ino, inode)
    }

    function At(s: Slot): nat
      requires inode.Shape() && ValidSlot(s)
    {
      Ptr(ImageOf(disk), inode, s)
    }
  }

  /** The role of a block of which file `ino` is the only user. */
  predicate ChargedTo(r: Role, ino: nat) {
    (r.Tree? || r.Lost?) && r.ino == ino
  }

  /**
   * From `a` to `b` the map of file `ino` has only grown: no pointer outside `changed` differs, no nonzero
   * pointer differs at all, nothing but the file's own indirect blocks was written, new data blocks are
   * clear, and sfi_blocks counts the new blocks.
   */
  ghost predicate Grows(a: Snap, b: Snap, ino: nat, changed: set<Slot>)
    requires a.inode.Shape() && b.inode.Shape()
  {
    && GrowsOwners(a, b, ino)
    && GrowsBlocks(a, b, ino)
    && GrowsPointers(a, b, changed)
    && GrowsInode(a, b)
    && (changed != {} ==> NoneLost(a, b))
  }

  /** Every new block is one that a pointer leads to. */
  ghost predicate NoneLost(a: Snap, b: Snap) {
    forall x: nat | x in b.owner && x !in a.owner :: b.owner[x].Tree?
  }

  ghost predicate GrowsOwners(a: Snap, b: Snap, ino: nat) {
    && (forall x: nat | x in a.owner :: x in b.owner && b.owner[x] == a.owner[x])
    && (forall x: nat | x in b.owner && x !in a.owner :: ChargedTo(b.owner[x], ino))
  }

  ghost predicate GrowsBlocks(a: Snap, b: Snap, ino: nat) {
    && |b.disk| == |a.disk|
    && (forall x: nat | x in a.owner && x < |a.disk| && !InteriorOf(a.owner, ino, x) :: b.disk[x] == a.disk[x])
    && (forall x: nat | x in b.owner && x !in a.owner && x < |b.disk| && !InteriorOf(b.owner, ino, x) ::
          b.disk[x] == ZeroBlock())
  }

  ghost predicate GrowsPointers(a: Snap, b: Snap, changed: set<Slot>)
    requires a.inode.Shape() && b.inode.Shape()
  {
    && (forall t | ValidSlot(t) && t !in changed :: b.At(t) == a.At(t))
    && (forall t | ValidSlot(t) && a.At(t) != 0 :: b.At(t) == a.At(t))
  }

  ghost predicate GrowsInode(a: Snap, b: Snap) {
    && b.inode.size == a.inode.size && b.inode.typ == a.inode.typ && b.inode.linkcount == a.inode.linkcount
    && b.inode.waste == a.inode.waste
    && b.inode.blocks == Wrap(a.inode.blocks + |b.owner| - |a.owner|)
    && StaysClean(a, b)
  }

  /** The dirty flags are not lost, and while the inode's is not set only sfi_blocks may have changed. */
  ghost predicate StaysClean(a: Snap, b: Snap) {
    && (a.dirty ==> b.dirty) && (!b.dirty ==> b.inode == a.inode.(blocks := b.inode.blocks))
    && MapKept(a.freemap, b.freemap)
  }

  lemma GrowsReflexive(a: Snap, ino: nat, changed: set<Slot>)
    requires a.inode.Shape() && a.inode.blocks < WORD_LIMIT
    ensures Grows(a, a, ino, changed)
  {
  }

  lemma GrowsBlocksTransitive(a: Snap, b: Snap, c: Snap, ino: nat)
    requires GrowsOwners(a, b, ino) && GrowsOwners(b, c, ino)
    requires GrowsBlocks(a, b, ino) && GrowsBlocks(b, c, ino)
    ensures GrowsBlocks(a, c, ino) && GrowsOwners(a, c, ino)
  {
  }

  lemma GrowsPointersTransitive(a: Snap, b: Snap, c: Snap, s1: set<Slot>, s2: set<Slot>)
    requires a.inode.Shape() && b.inode.Shape() && c.inode.Shape()
    requires GrowsPointers(a, b, s1) && GrowsPointers(b, c, s2)
    ensures GrowsPointers(a, c, s1 + s2)
  {
  }

  lemma GrowsInodeTransitive(a: Snap, b: Snap, c: Snap)
    requires GrowsInode(a, b) && GrowsInode(b, c)
    ensures GrowsInode(a, c)
  {
    hide Wrap;
    WrapShift(a.inode.blocks + |b.owner| - |a.owner|, |c.owner| - |b.owner|);
  }

  lemma NoneLostTransitive(a: Snap, b: Snap, c: Snap, ino: nat)
    requires GrowsOwners(a, b, ino) && GrowsOwners(b, c, ino) && NoneLost(a, b) && NoneLost(b, c)
    ensures NoneLost(a, c)
  {
  }

  lemma GrowsTransitive(a: Snap, b: Snap, c: Snap, ino: nat, s1: set<Slot>, s2: set<Slot>)
    requires a.inode.Shape() && b.inode.Shape() && c.inode.Shape()
    requires s1 == {} <==> s2 == {}
    requires Grows(a, b, ino, s1) && Grows(b, c, ino, s2)
    ensures Grows(a, c, ino, s1 + s2)
  {
    GrowsBlocksTransitive(a, b, c, ino);
    GrowsPointersTransitive(a, b, c, s1, s2);
    GrowsInodeTransitive(a, b, c);
    if s1 != {} {
      NoneLostTransitive(a, b, c, ino);
    }
  }

  lemma GrowsCounts(a: Snap, b: Snap, ino: nat, changed: set<Slot>)
    requires a.inode.Shape() && b.inode.Shape() && Grows(a, b, ino, changed)
    ensures |b.disk| == |a.disk| && b.inode.blocks < WORD_LIMIT
  {
  }

  lemma SlotInVolume(a: Snap, ino: nat, s: Slot)
    requires a.Ok(ino) && ValidSlot(s) && a.At(s) != 0
    ensures a.At(s) < |a.disk| && a.At(s) in a.owner && a.owner[a.At(s)] == Tree(ino, s)
  {
  }

  lemma GrowsElsewhere(a: Snap, b: Snap, ino: nat, changed: set<Slot>, s: Slot)
    requires a.inode.Shape() && b.inode.Shape() && Grows(a, b, ino, changed)
    requires ValidSlot(s) && (s !in changed || a.At(s) != 0)
    ensures b.At(s) == a.At(s)
  {
  }

  // ----- the three things that an allocation inside sfs_bmap can do

  lemma TwoBlocksImage(disk: Disk, nb: nat, p: nat, ws: seq<nat>)
    requires nb < |disk| && p < |disk| && FitWords(ws)
    ensures ImageOf(disk[nb := ZeroBlock()][p := WordBlock(ws)]) == ImageOf(disk)[nb := NoPointers()][p := ws]
  {
    ImageUpdate(disk, nb, ZeroBlock());
    ImageUpdate(disk[nb := ZeroBlock()], p, WordBlock(ws));
    WordsRoundTrip(ws);
    ZeroBlockWords();
  }

  /** `b` is `a` after block `nb` was hung below the indirect block in slot `s`, at index `k`. */
  ghost predicate HangsChild(a: Snap, b: Snap, ino: nat, s: Slot, k: nat, nb: nat) {
    && a.Ok(ino) && a.inode.blocks < WORD_LIMIT
    && ValidSlot(s) && Interior(s) && k < DBPERIDB
    && 0 < a.At(s) < |a.disk| && a.At(Child(s, k)) == 0
    && 0 < nb < |a.disk| && nb !in a.owner
    && FitWords(Words(a.disk[a.At(s)])[k := nb])
    && b.disk == a.disk[nb := ZeroBlock()][a.At(s) := WordBlock(Words(a.disk[a.At(s)])[k := nb])]
    && b.owner == a.owner[nb := Tree(ino, Child(s, k))]
    && b.inode == a.inode.(blocks := Wrap(a.inode.blocks + 1)) && b.dirty == a.dirty && MapKept(a.freemap, b.freemap)
  }

  lemma GrowChildTree(a: Snap, b: Snap, ino: nat, s: Slot, k: nat, nb: nat)
    requires HangsChild(a, b, ino, s, k, nb)
    ensures b.Ok(ino) && ValidSlot(Child(s, k))
    ensures forall t | ValidSlot(t) :: b.At(t) == if t == Child(s, k) then nb else a.At(t)
  {
    var p := a.At(s);
    var w, w' := ImageOf(a.disk), ImageOf(b.disk);
    TwoBlocksImage(a.disk, nb, p, Words(a.disk[p])[k := nb]);
    assert w' == w[nb := NoPointers()][p := w[p][k := nb]];
    GraftByUpdate(w, w', a.owner, ino, a.inode, s, k, nb);
    GraftTree(w, w', a.owner, ino, a.inode, s, k, nb);
    SameTree(w', b.owner, ino, a.inode, b.inode);
  }

  lemma GrowChild(a: Snap, b: Snap, ino: nat, s: Slot, k: nat, nb: nat)
    requires HangsChild(a, b, ino, s, k, nb)
    ensures b.Ok(ino) && Grows(a, b, ino, {Child(s, k)})
    ensures ValidSlot(Child(s, k)) && b.At(Child(s, k)) == nb
  {
    GrowChildTree(a, b, ino, s, k, nb);
    GrowChildPointers(a, b, ino, s, k, nb);
  }

  lemma GrowChildPointers(a: Snap, b: Snap, ino: nat, s: Slot, k: nat, nb: nat)
    requires a.inode.Shape() && b.inode.Shape() && a.inode.blocks < WORD_LIMIT
    requires ValidSlot(s) && Interior(s) && k < DBPERIDB && 0 < a.At(s) < |a.disk|
    requires a.At(s) in a.owner && a.owner[a.At(s)] == Tree(ino, s) && nb !in a.owner && nb < |a.disk|
    requires |b.disk| == |a.disk|
    requires forall x: nat | x < |a.disk| && x != nb && x != a.At(s) :: b.disk[x] == a.disk[x]
    requires b.disk[nb] == ZeroBlock()
    requires b.owner == a.owner[nb := Tree(ino, Child(s, k))]
    requires b.inode == a.inode.(blocks := Wrap(a.inode.blocks + 1)) && b.dirty == a.dirty
             && MapKept(a.freemap, b.freemap)
    requires ValidSlot(Child(s, k)) && a.At(Child(s, k)) == 0
    requires forall t | ValidSlot(t) :: b.At(t) == if t == Child(s, k) then nb else a.At(t)
    ensures Grows(a, b, ino, {Child(s, k)})
  {
  }

  /** Setting a pointer of the inode itself. */
  lemma GrowRoot(a: Snap, b: Snap, ino: nat, r: Root, nb: nat)
    requires a.Ok(ino) && a.inode.blocks < WORD_LIMIT
    requires ValidSlot(Slot(r, [])) && RootPtr(a.inode, r) == 0
    requires 0 < nb < |a.disk| && nb !in a.owner
    requires b.disk == a.disk[nb := ZeroBlock()]
    requires b.owner == a.owner[nb := Tree(ino, Slot(r, []))]
    requires b.inode == SetRootPtr(a.inode, r, nb).(blocks := Wrap(a.inode.blocks + 1)) && b.dirty
             && MapKept(a.freemap, b.freemap)
    ensures b.Ok(ino) && Grows(a, b, ino, {Slot(r, [])}) && b.At(Slot(r, [])) == nb
  {
    GrowRootTree(a, b, ino, r, nb);
    GrowRootPointers(a, b, ino, r, nb);
  }

  lemma GrowRootTree(a: Snap, b: Snap, ino: nat, r: Root, nb: nat)
    requires a.Ok(ino) && ValidSlot(Slot(r, [])) && RootPtr(a.inode, r) == 0
    requires 0 < nb < |a.disk| && nb !in a.owner
    requires b.disk == a.disk[nb := ZeroBlock()]
    requires b.owner == a.owner[nb := Tree(ino, Slot(r, []))]
    requires b.inode == SetRootPtr(a.inode, r, nb).(blocks := b.inode.blocks)
    ensures b.Ok(ino) && a.At(Slot(r, [])) == 0
    ensures forall t | ValidSlot(t) :: b.At(t) == if t == Slot(r, []) then nb else a.At(t)
  {
    ImageUpdate(a.disk, nb, ZeroBlock());
    ZeroBlockWords();
    GraftRoot(ImageOf(a.disk), ImageOf(b.disk), a.owner, ino, a.inode, b.inode, r, nb);
  }

  lemma GrowRootPointers(a: Snap, b: Snap, ino: nat, r: Root, nb: nat)
    requires a.inode.Shape() && b.inode.Shape() && a.inode.blocks < WORD_LIMIT
    requires ValidSlot(Slot(r, [])) && 0 < nb < |a.disk| && nb !in a.owner && a.At(Slot(r, [])) == 0
    requires b.disk == a.disk[nb := ZeroBlock()]
    requires b.owner == a.owner[nb := Tree(ino, Slot(r, []))]
    requires b.inode == SetRootPtr(a.inode, r, nb).(blocks := Wrap(a.inode.blocks + 1)) && b.dirty
             && MapKept(a.freemap, b.freemap)
    requires forall t | ValidSlot(t) :: b.At(t) == if t == Slot(r, []) then nb else a.At(t)
    ensures Grows(a, b, ino, {Slot(r, [])})
  {
    hide Ptr, Wrap;
  }

  /** Marking a block that no pointer leads to. */
  lemma GrowLost(a: Snap, b: Snap, ino: nat, nb: nat)
    requires a.Ok(ino) && a.inode.blocks < WORD_LIMIT
    requires 0 < nb < |a.disk| && nb !in a.owner
    requires b.disk == a.disk[nb := ZeroBlock()]
    requires b.owner == a.owner[nb := Lost(ino)]
    requires b.inode == a.inode.(blocks := Wrap(a.inode.blocks + 1)) && b.dirty && MapKept(a.freemap, b.freemap)
    ensures b.Ok(ino) && Grows(a, b, ino, {})
  {
    GrowLostTree(a, b, ino, nb);
    GrowLostPointers(a, b, ino, nb);
  }

  lemma GrowLostTree(a: Snap, b: Snap, ino: nat, nb: nat)
    requires a.Ok(ino) && nb < |a.disk| && nb !in a.owner
    requires b.disk == a.disk[nb := ZeroBlock()]
    requires b.owner == a.owner[nb := Lost(ino)]
    requires b.inode == a.inode.(blocks := b.inode.blocks)
    ensures b.Ok(ino) && forall t | ValidSlot(t) :: b.At(t) == a.At(t)
  {
    ImageUpdate(a.disk, nb, ZeroBlock());
    FrameTree(ImageOf(a.disk), ImageOf(b.disk), a.owner, b.owner, ino, a.inode);
    SameTree(ImageOf(b.disk), b.owner, ino, a.inode, b.inode);
  }

  lemma GrowLostPointers(a: Snap, b: Snap, ino: nat, nb: nat)
    requires a.inode.Shape() && a.inode.blocks < WORD_LIMIT
    requires 0 < nb < |a.disk| && nb !in a.owner
    requires b.disk == a.disk[nb := ZeroBlock()]
    requires b.owner == a.owner[nb := Lost(ino)]
    requires b.inode == a.inode.(blocks := Wrap(a.inode.blocks + 1)) && b.dirty && MapKept(a.freemap, b.freemap)
    requires forall t | ValidSlot(t) :: b.At(t) == a.At(t)
    ensures Grows(a, b, ino, {})
  {
    hide Ptr, Wrap;
  }

  // ----- what sfs_bmap promises

  function Prefix(s: Slot, k: nat): Slot
    requires k <= |s.path|
  {
    s.(path := s.path[..k])
  }

  /** The pointers on the way to `s` down to depth `k`. */
  function PrefixesTo(s: Slot, k: nat): set<Slot>
    requires k <= |s.path|
  {
    set j | 0 <= j <= k :: Prefix(s, j)
  }

  /** The pointers on the way to `s`, which are the only ones that allocation for `s` may fill in. */
  function Prefixes(s: Slot): set<Slot> {
    PrefixesTo(s, |s.path|)
  }

  lemma PrefixStep(s: Slot, k: nat)
    requires k < |s.path|
    ensures Child(Prefix(s, k), s.path[k]) == Prefix(s, k + 1)
    ensures Parent(Prefix(s, k + 1)) == Prefix(s, k)
    ensures PrefixesTo(s, k) + {Prefix(s, k + 1)} == PrefixesTo(s, k + 1)
    ensures PrefixesTo(s, k) != {}
  {
    assert Prefix(s, k) in PrefixesTo(s, k);
  }

  lemma NotYet(s: Slot, k: nat)
    requires k < |s.path|
    ensures s !in PrefixesTo(s, k)
  {
  }

  lemma PrefixesGrow(s: Slot, k: nat)
    requires k <= |s.path|
    ensures PrefixesTo(s, k) <= Prefixes(s)
    ensures Prefix(s, |s.path|) == s
    ensures PrefixesTo(s, 0) == {Prefix(s, 0)} && Prefix(s, 0) == Slot(s.root, [])
    ensures PrefixesTo(s, k) != {}
  {
    assert Prefix(s, k) in PrefixesTo(s, k);
  }

  /** The file has neither a double nor a triple indirect block. */
  predicate Shallow(n: Inode) {
    n.doubleindirect == 0 && n.tripleindirect == 0
  }

  /** How many indirect blocks strictly below the root, down to depth `k`, are missing on the way to `s`. */
  function MissingUpTo(a: Snap, s: Slot, k: nat): nat
    requires a.inode.Shape() && k <= |s.path| && ValidSlot(Prefix(s, k))
  {
    if k == 0 then 0
    else
      assert Prefix(Prefix(s, k), k - 1) == Prefix(s, k - 1);
      MissingUpTo(a, s, k - 1) + if a.At(Prefix(s, k)) == 0 then 1 else 0
  }

  /** How many blocks a lookup that allocates nothing loses: none when the root itself is missing. */
  function LostBy(a: Snap, s: Slot): nat
    requires a.inode.Shape() && ValidSlot(s)
  {
    if s.path == [] || a.At(Slot(s.root, [])) == 0 then 0
    else
      assert ValidSlot(Prefix(s, |s.path| - 1));
      MissingUpTo(a, s, |s.path| - 1)
  }

  /** The outcome `r` of mapping the pointer `s`, going from `a` to `b`. */
  ghost predicate Maps(a: Snap, b: Snap, s: Slot, doalloc: bool, r: BlockResult) {
    && a.inode.Shape() && b.inode.Shape() && ValidSlot(s)
    && (r.Block? || r == Failed(ENOSPC))
    && (r.Block? ==> r.block == b.At(s))
    && (r.Block? && doalloc ==> r.block != 0)
    && (r.Block? && !doalloc ==> |b.owner| == |a.owner| + LostBy(a, s))
    && (r.Failed? ==> b.At(s) == 0 && forall x: nat | x < |b.disk| :: x in b.owner)
    && (r.Failed? && !doalloc ==> LostBy(a, s) > 0)
    && (!doalloc && LostBy(a, s) == 0 ==> b == a)
    && (a.At(s) != 0 ==> r == Block(a.At(s)) && b == a)
  }

  /** The last step of the way, from `b` to `c`. */
  lemma MapsLast(a: Snap, b: Snap, c: Snap, s: Slot, i: nat, doalloc: bool, r: BlockResult)
    requires Arrived(a, b, s, i, doalloc) && i + 1 == |s.path| && ValidSlot(s) && b.inode.Shape() && c.inode.Shape()
    requires a.At(s) != 0 ==> MissingUpTo(a, s, i) == 0 && a.At(Slot(s.root, [])) != 0
    requires a.At(s) == 0 ==> b.At(s) == 0
    requires r.Block? ==> r.block == c.At(s) && (doalloc ==> r.block != 0)
    requires !doalloc || b.At(s) != 0 ==> r.Block? && c == b
    requires r.Block? || (r == Failed(ENOSPC) && c == b && forall x: nat | x < |c.disk| :: x in c.owner)
    ensures Maps(a, c, s, doalloc, r)
  {
    hide Ptr;
  }

  /** On the way to a pointer that is not empty nothing is missing. */
  lemma {:induction false} FullWay(a: Snap, s: Slot, k: nat)
    requires a.inode.Shape() && ValidSlot(s) && a.At(s) != 0 && k <= |s.path|
    ensures ValidSlot(Prefix(s, k)) && a.At(Prefix(s, k)) != 0
    ensures a.At(Slot(s.root, [])) != 0 && MissingUpTo(a, s, k) == 0
    decreases |s.path| - k, 1
  {
    FullPrefix(a, s, k);
    NoneMissing(a, s, k);
    FullPrefix(a, s, 0);
  }

  lemma {:induction false} FullPrefix(a: Snap, s: Slot, k: nat)
    requires a.inode.Shape() && ValidSlot(s) && a.At(s) != 0 && k <= |s.path|
    ensures ValidSlot(Prefix(s, k)) && a.At(Prefix(s, k)) != 0
    decreases |s.path| - k
  {
    if k < |s.path| {
      FullPrefix(a, s, k + 1);
      assert Parent(Prefix(s, k + 1)) == Prefix(s, k);
    } else {
      assert Prefix(s, k) == s;
    }
  }

  lemma {:induction false} NoneMissing(a: Snap, s: Slot, k: nat)
    requires a.inode.Shape() && ValidSlot(s) && a.At(s) != 0 && k <= |s.path|
    ensures ValidSlot(Prefix(s, k)) && MissingUpTo(a, s, k) == 0
  {
    if k > 0 {
      NoneMissing(a, s, k - 1);
      FullPrefix(a, s, k);
      assert Prefix(Prefix(s, k), k - 1) == Prefix(s, k - 1);
    }
  }

  lemma MapsFull(a: Snap, b: Snap, s: Slot, doalloc: bool)
    requires a.inode.Shape() && b.inode.Shape() && ValidSlot(s)
    requires forall x: nat | x < |b.disk| :: x in b.owner
    requires !doalloc ==> LostBy(a, s) > 0
    requires a.At(s) == 0 && b.At(s) == 0
    ensures Maps(a, b, s, doalloc, Failed(ENOSPC))
  {
  }

  /** Below a missing root everything is missing. */
  lemma {:induction false} EmptyRoot(a: Snap, s: Slot)
    requires a.inode.Shape() && ValidSlot(s) && a.At(Slot(s.root, [])) == 0
    ensures a.At(s) == 0 && LostBy(a, s) == 0
    decreases |s.path|
  {
    if |s.path| > 0 {
      EmptyRoot(a, Parent(s));
    }
  }

  lemma GrowsWiden(a: Snap, b: Snap, ino: nat, s1: set<Slot>, s2: set<Slot>)
    requires a.inode.Shape() && b.inode.Shape() && Grows(a, b, ino, s1) && s1 <= s2 && (s1 == {} ==> s2 == {})
    ensures Grows(a, b, ino, s2)
  {
  }

  lemma RootOf(a: Snap, root: Root)
    requires a.inode.Shape() && ValidSlot(Slot(root, []))
    ensures a.At(Slot(root, [])) == RootPtr(a.inode, root)
  {
  }

  lemma NothingMissing(a: Snap, s: Slot)
    requires a.inode.Shape() && ValidSlot(Prefix(s, 0))
    ensures MissingUpTo(a, s, 0) == 0
  {
  }

  lemma {:induction false} MissingGrows(a: Snap, s: Slot, j: nat, k: nat)
    requires a.inode.Shape() && j <= k <= |s.path| && ValidSlot(Prefix(s, k))
    ensures ValidSlot(Prefix(s, j)) && MissingUpTo(a, s, j) <= MissingUpTo(a, s, k)
    decreases k
  {
    if j < k {
      assert Prefix(Prefix(s, k), k - 1) == Prefix(s, k - 1);
      MissingGrows(a, s, j, k - 1);
    } else {
      assert Prefix(s, j) == Prefix(s, k);
    }
  }

  /** A lookup in a shallow file meets no missing indirect block below a root. */
  lemma ShallowLookup(a: Snap, fileblock: nat)
    requires a.inode.Shape() && Shallow(a.inode)
    ensures match PlaceOf(fileblock)
            case At(s) => LostBy(a, s) == 0
            case Nowhere => IndexesOf(fileblock).root.Triple?
  {
    var s := IndexesOf(fileblock);
    RootOf(a, s.root);
    if |s.path| > 0 {
      NothingMissing(a, s);
    }
  }

  lemma MissingStep(a: Snap, s: Slot, i: nat)
    requires a.inode.Shape() && i + 1 < |s.path| && ValidSlot(Prefix(s, i + 1))
    ensures ValidSlot(Prefix(s, i))
    ensures MissingUpTo(a, s, i + 1) == MissingUpTo(a, s, i) + if a.At(Prefix(s, i + 1)) == 0 then 1 else 0
    ensures ValidSlot(s) && a.At(Slot(s.root, [])) != 0 && a.At(Prefix(s, i + 1)) == 0 ==> LostBy(a, s) > 0
  {
    assert Prefix(Prefix(s, i + 1), i) == Prefix(s, i);
    if ValidSlot(s) {
      assert ValidSlot(Prefix(s, |s.path| - 1));
      MissingGrows(a, s, i + 1, |s.path| - 1);
    }
  }

  /**
   * On the way to `s`, started at `a`, the walk has reached depth `i` at `b`: unless it allocates, it has lost
   * one block for every missing one; if none was missing, nothing has changed.
   */
  ghost predicate Arrived(a: Snap, b: Snap, s: Slot, i: nat, doalloc: bool) {
    && a.inode.Shape() && i <= |s.path| && ValidSlot(Prefix(s, i))
    && (!doalloc ==> a.At(Slot(s.root, [])) != 0 && |b.owner| == |a.owner| + MissingUpTo(a, s, i))
    && (a.At(Slot(s.root, [])) != 0 && MissingUpTo(a, s, i) == 0 ==> b == a)
  }

  lemma ArrivedAtRoot(a: Snap, b: Snap, s: Slot, doalloc: bool)
    requires a.inode.Shape() && ValidSlot(Slot(s.root, []))
    requires !doalloc ==> a.At(Slot(s.root, [])) != 0
    requires a.At(Slot(s.root, [])) != 0 ==> b == a
    ensures Arrived(a, b, s, 0, doalloc)
  {
  }

  lemma ArrivedShape(a: Snap, b: Snap, s: Slot, i: nat, doalloc: bool)
    requires Arrived(a, b, s, i, doalloc)
    ensures a.inode.Shape()
  {
  }

  /** One step further: `r` is the slot's old pointer, and an empty one is what costs a block. */
  lemma ArrivedFurther(a: Snap, b: Snap, c: Snap, ino: nat, s: Slot, i: nat, doalloc: bool, ok: bool)
    requires Arrived(a, b, s, i, doalloc) && i + 1 < |s.path| && ValidSlot(Prefix(s, i + 1)) && b.inode.Shape()
    requires b.At(Prefix(s, i + 1)) != 0 ==> ok && c == b
    requires !doalloc ==> b.At(Prefix(s, i + 1)) == a.At(Prefix(s, i + 1))
    requires ok && !doalloc ==> |c.owner| == |b.owner| + if b.At(Prefix(s, i + 1)) == 0 then 1 else 0
    ensures ok ==> Arrived(a, c, s, i + 1, doalloc)
    ensures !ok && ValidSlot(s) ==> a.At(s) == 0 && (!doalloc ==> LostBy(a, s) > 0)
  {
    MissingStep(a, s, i);
    if ValidSlot(s) && a.At(s) != 0 {
      FullWay(a, s, i + 1);
    }
  }

  class Volume {
    var disk: Disk
    const freemap: BitMap
    var freemapDirty: bool
    ghost var owner: Owner

    /**
     * Every marked bit below the volume size is a block with a known role, every bit beyond it is marked, and
     * the superblock is one of the marked blocks.
     */
    ghost predicate Valid()
      reads this, freemap, freemap.v
    {
      && freemap.Valid()
      && 0 < |disk| <= freemap.nbits == freemap.v.Length * BITS_PER_WORD && |disk| <= WORD_LIMIT
      && 0 in owner && owner[0] == Superblock
      && (forall b: nat | b < freemap.nbits :: b in freemap.Marked() <==> (b in owner || |disk| <= b))
      && (forall b | b in owner :: b < |disk|)
    }

    constructor (disk: Disk, freemap: BitMap, ghost owner: Owner)
      ensures this.disk == disk && this.freemap == freemap && this.owner == owner && !freemapDirty
    {
      this.disk := disk;
      this.freemap := freemap;
      this.owner := owner;
      freemapDirty := false;
    }

    ghost function Now(sv: SfsVnode): Snap
      reads this, freemap.v, sv
    {
      Snap(disk, owner, Map(), sv.inode, sv.dirty)
    }

    ghost function Map(): FreeMap
      reads this, freemap.v
    {
      FreeMap(freemap.v[..], freemapDirty)
    }

    /** sfs_balloc: the least free block, cleared. The panic on a block beyond the volume cannot be reached. */
    method Balloc(ghost role: Role) returns (r: AllocResult)
      requires Valid()
      modifies this, freemap.v
      ensures Valid()
      ensures |disk| == |old(disk)|
      ensures r.Got? ==> 0 < r.index < |disk| && r.index !in old(owner)
      ensures r.Got? ==> forall b: nat | b < r.index :: b in old(owner)
      ensures r.Got? ==> disk == old(disk)[r.index := ZeroBlock()] && owner == old(owner)[r.index := role]
      ensures r.Got? ==> freemapDirty && |Map().bits| == |old(Map()).bits|
      ensures r.NoSpace? ==> disk == old(disk) && owner == old(owner) && Map() == old(Map())
      ensures r.NoSpace? ==> forall b: nat | b < |disk| :: b in owner
    {
      r := freemap.Alloc();
      if r.Got? {
        freemapDirty := true;
        assert r.index < |disk|;
        disk := disk[r.index := ZeroBlock()];
        owner := owner[r.index := role];
      }
    }

    /** sfs_bfree: the caller must pass a block that is marked, other than the superblock. */
    method Bfree(b: nat)
      requires Valid() && b in owner && b != 0
      modifies this, freemap.v
      ensures Valid() && disk == old(disk) && owner == old(owner) - {b}
      ensures freemapDirty && |Map().bits| == |old(Map()).bits|
    {
      freemap.Unmark(b);
      freemapDirty := true;
      owner := owner - {b};
    }

    lemma SuperblockOwned()
      requires Valid()
      ensures 0 in owner && owner[0] == Superblock && |disk| > 0
    {
    }

    lemma AllInVolume()
      requires Valid()
      ensures forall b | b in owner :: b < |disk|
    {
    }

    lemma OwnedInVolume(b: nat)
      requires Valid() && b in owner
      ensures b < |disk|
    {
    }

    /** A change in what marked blocks are used for, with no block marked or freed. */
    ghost method Reassign(owner': Owner)
      requires Valid() && owner'.Keys == owner.Keys && 0 in owner' && owner'[0] == Superblock
      modifies this`owner
      ensures Valid() && owner == owner'
    {
      owner := owner';
    }

    /** sfs_wblock: writes one block; device errors are outside the model. */
    method WriteBlock(b: nat, x: Block)
      requires Valid() && b < |disk|
      modifies this`disk
      ensures Valid() && disk == old(disk)[b := x]
    {
      disk := disk[b := x];
    }

    /** The freemap on disk is as in memory from now on. */
    method MapClean()
      requires Valid()
      modifies this`freemapDirty
      ensures Valid() && !freemapDirty
    {
      freemapDirty := false;
    }

    // ----- sfs_bmap

    /**
     * The index buffer stands for slot `s`: it holds the words of the block that `s` leads to, or, when
     * nothing may be allocated and `s` is empty, it is clear.
     */
    ghost predicate Loaded(sv: SfsVnode, s: Slot, idblock: nat, blockbuf: seq<nat>, doalloc: bool)
      reads this, freemap.v, sv
    {
      && sv.inode.Shape() && ValidSlot(s) && Interior(s)
      && var p := Now(sv).At(s);
        if p != 0 then idblock == p < |disk| && blockbuf == Words(disk[p])
        else !doalloc && blockbuf == NoPointers()
    }

    /** sfs_bmap's inner function get_block: entry `blockno` of the buffer, allocated if `doalloc` asks for it. */
    method GetBlock(sv: SfsVnode, ghost s: Slot, idblock: nat, blockbuf: seq<nat>, blockno: nat, doalloc: bool)
      returns (r: BlockResult)
      requires Valid() && Now(sv).Ok(sv.ino) && sv.inode.blocks < WORD_LIMIT
      requires Loaded(sv, s, idblock, blockbuf, doalloc) && blockno < DBPERIDB
      modifies this, freemap.v, sv
      ensures Valid() && Now(sv).Ok(sv.ino)
      ensures Grows(old(Now(sv)), Now(sv), sv.ino, if doalloc then {Child(s, blockno)} else {})
      ensures ValidSlot(Child(s, blockno))
      ensures r.Block? ==> r.block == Now(sv).At(Child(s, blockno)) && (doalloc ==> r.block != 0)
      ensures !doalloc || old(Now(sv)).At(Child(s, blockno)) != 0 ==> r.Block? && Now(sv) == old(Now(sv))
      ensures r.Block? || (r == Failed(ENOSPC) && Now(sv) == old(Now(sv)) && forall b: nat | b < |disk| :: b in owner)
      ensures sv.refcount == old(sv.refcount)
    {
      hide Grows, TreeOk;
      var block := blockbuf[blockno];
      assert Parent(Child(s, blockno)) == s;
      assert block == Now(sv).At(Child(s, blockno));
      GrowsReflexive(Now(sv), sv.ino, if doalloc then {Child(s, blockno)} else {});
      if block == 0 && doalloc {
        r := AllocChild(sv, s, idblock, blockbuf, blockno);
      } else {
        r := Block(block);
      }
    }

    /** The allocating part of get_block: the counter grows and the indirect block is written back. */
    method AllocChild(sv: SfsVnode, ghost s: Slot, idblock: nat, blockbuf: seq<nat>, blockno: nat)
      returns (r: BlockResult)
      requires Valid() && Now(sv).Ok(sv.ino) && sv.inode.blocks < WORD_LIMIT
      requires ValidSlot(s) && Interior(s) && 0 < idblock == Now(sv).At(s) < |disk|
      requires blockno < DBPERIDB && blockbuf == Words(disk[idblock]) && blockbuf[blockno] == 0
      modifies this, freemap.v, sv
      ensures Valid() && Now(sv).Ok(sv.ino) && ValidSlot(Child(s, blockno))
      ensures Grows(old(Now(sv)), Now(sv), sv.ino, {Child(s, blockno)})
      ensures r.Block? ==> 0 != r.block == Now(sv).At(Child(s, blockno))
      ensures r.Block? || (r == Failed(ENOSPC) && Now(sv) == old(Now(sv)) && forall b: nat | b < |disk| :: b in owner)
      ensures sv.refcount == old(sv.refcount)
    {
      hide Grows, TreeOk, Wrap, Words, WordBlock;
      ghost var a := Now(sv);
      GrowsReflexive(a, sv.ino, {Child(s, blockno)});
      var got := Balloc(Tree(sv.ino, Child(s, blockno)));
      if got.NoSpace? {
        return Failed(ENOSPC);
      }
      sv.inode := sv.inode.(blocks := Wrap(sv.inode.blocks + 1));
      assert Parent(Child(s, blockno)) == s;
      WordsFit(a.disk[idblock]);
      WriteBlock(idblock, WordBlock(blockbuf[blockno := got.index]));
      GrowChild(a, Now(sv), sv.ino, s, blockno, got.index);
      r := Block(got.index);
    }

    /**
     * sfs_bmap's inner function loadbuffer. At level 0 the block number comes from the inode and a missing
     * block is allocated and recorded there. At level 1 a missing block is allocated too, but nothing
     * records it; this happens only when nothing was to be allocated.
     */
    method LoadBuffer(sv: SfsVnode, ghost s: Slot, root: Root, block: nat, level: nat, doalloc: bool)
      returns (ok: bool, idblock: nat, blockbuf: seq<nat>)
      requires Valid() && Now(sv).Ok(sv.ino) && sv.inode.blocks < WORD_LIMIT
      requires ValidSlot(s) && Interior(s) && s.root == root && block == Now(sv).At(s)
      requires if level == 0 then s.path == [] && !s.root.Direct? && (block == 0 ==> doalloc)
               else block == 0 ==> !doalloc
      modifies this, freemap.v, sv
      ensures Valid() && Now(sv).Ok(sv.ino)
      ensures Grows(old(Now(sv)), Now(sv), sv.ino, if doalloc then {s} else {})
      ensures ok ==> Loaded(sv, s, idblock, blockbuf, doalloc)
      ensures block != 0 ==> ok && Now(sv) == old(Now(sv))
      ensures block == 0 && ok ==> |owner| == |old(owner)| + 1
      ensures !ok ==> (forall b: nat | b < |disk| :: b in owner) && Now(sv) == old(Now(sv))
      ensures sv.refcount == old(sv.refcount)
    {
      hide Grows, TreeOk;
      GrowsReflexive(Now(sv), sv.ino, if doalloc then {s} else {});
      ok, idblock, blockbuf := true, block, NoPointers();
      if block == 0 {
        if level == 0 {
          ok, idblock := AllocRoot(sv, root);
          assert s == Slot(root, []);
          ZeroBlockWords();
        } else {
          ok, idblock := AllocLost(sv);
          GrowsElsewhere(old(Now(sv)), Now(sv), sv.ino, {}, s);
        }
      } else {
        SlotInVolume(Now(sv), sv.ino, s);
        blockbuf := Words(disk[block]);
      }
    }

    /** loadbuffer at level 0: the inode remembers the new block. Also the allocation of a direct block. */
    method AllocRoot(sv: SfsVnode, root: Root) returns (ok: bool, block: nat)
      requires Valid() && Now(sv).Ok(sv.ino) && sv.inode.blocks < WORD_LIMIT
      requires ValidSlot(Slot(root, [])) && RootPtr(sv.inode, root) == 0
      modifies this, freemap.v, sv
      ensures Valid() && Now(sv).Ok(sv.ino)
      ensures Grows(old(Now(sv)), Now(sv), sv.ino, {Slot(root, [])})
      ensures ok ==> 0 < block == Now(sv).At(Slot(root, [])) < |disk| && disk[block] == ZeroBlock()
      ensures ok ==> |owner| == |old(owner)| + 1
      ensures !ok ==> (forall b: nat | b < |disk| :: b in owner) && Now(sv) == old(Now(sv))
      ensures sv.refcount == old(sv.refcount)
    {
      hide Grows, TreeOk;
      ghost var a := Now(sv);
      GrowsReflexive(a, sv.ino, {Slot(root, [])});
      var got := Balloc(Tree(sv.ino, Slot(root, [])));
      if got.NoSpace? {
        return false, 0;
      }
      block := got.index;
      sv.inode := SetRootPtr(sv.inode, root, block).(blocks := Wrap(sv.inode.blocks + 1));
      sv.dirty := true;
      GrowRoot(a, Now(sv), sv.ino, root, block);
      ok := true;
    }

    /** loadbuffer at level 1 with no block to load: a block is allocated that nothing refers to. */
    method AllocLost(sv: SfsVnode) returns (ok: bool, block: nat)
      requires Valid() && Now(sv).Ok(sv.ino) && sv.inode.blocks < WORD_LIMIT
      modifies this, freemap.v, sv
      ensures Valid() && Now(sv).Ok(sv.ino)
      ensures Grows(old(Now(sv)), Now(sv), sv.ino, {})
      ensures ok ==> |owner| == |old(owner)| + 1
      ensures !ok ==> (forall b: nat | b < |disk| :: b in owner) && Now(sv) == old(Now(sv))
      ensures sv.refcount == old(sv.refcount)
    {
      hide Grows, TreeOk;
      ghost var a := Now(sv);
      GrowsReflexive(a, sv.ino, {});
      var got := Balloc(Lost(sv.ino));
      if got.NoSpace? {
        return false, 0;
      }
      block := got.index;
      sv.inode := sv.inode.(blocks := Wrap(sv.inode.blocks + 1));
      sv.dirty := true;
      GrowLost(a, Now(sv), sv.ino, block);
      ok := true;
    }

    /** Steps from slot `s` to the indirect block below it: get_block, then loadbuffer at level 1. */
    method Descend(sv: SfsVnode, ghost s: Slot, root: Root, idblock: nat, blockbuf: seq<nat>, blockno: nat,
        doalloc: bool)
      returns (ok: bool, idblock': nat, blockbuf': seq<nat>)
      requires Valid() && Now(sv).Ok(sv.ino) && sv.inode.blocks < WORD_LIMIT
      requires Loaded(sv, s, idblock, blockbuf, doalloc) && blockno < DBPERIDB
      requires s.root == root && Interior(Child(s, blockno))
      modifies this, freemap.v, sv
      ensures Valid() && Now(sv).Ok(sv.ino) && ValidSlot(Child(s, blockno)) && sv.inode.blocks < WORD_LIMIT
      ensures Grows(old(Now(sv)), Now(sv), sv.ino, if doalloc then {Child(s, blockno)} else {})
      ensures ok ==> Loaded(sv, Child(s, blockno), idblock', blockbuf', doalloc)
      ensures ok && !doalloc ==> |owner| == |old(owner)| + if old(Now(sv)).At(Child(s, blockno)) == 0 then 1 else 0
      ensures !ok ==> forall b: nat | b < |disk| :: b in owner
      ensures !ok && !doalloc ==> old(Now(sv)).At(Child(s, blockno)) == 0
      ensures old(Now(sv)).At(Child(s, blockno)) != 0 ==> ok && Now(sv) == old(Now(sv))
      ensures sv.refcount == old(sv.refcount)
    {
      hide Grows, TreeOk;
      ghost var changed := if doalloc then {Child(s, blockno)} else {};
      ghost var a := Now(sv);
      ok, idblock', blockbuf' := false, 0, [];
      var r := GetBlock(sv, s, idblock, blockbuf, blockno, doalloc);
      ghost var b := Now(sv);
      GrowsCounts(a, b, sv.ino, changed);
      if r.Block? {
        ok, idblock', blockbuf' := LoadBuffer(sv, Child(s, blockno), root, r.block, 1, doalloc);
        GrowsCounts(b, Now(sv), sv.ino, changed);
        GrowsTransitive(a, b, Now(sv), sv.ino, changed, changed);
        assert changed + changed == changed;
      }
    }

    /** The check before sfs_bmap hands back a block; its panic cannot be reached. */
    method CheckUsed(sv: SfsVnode, ghost s: Slot, block: nat)
      requires Valid() && Now(sv).Ok(sv.ino) && ValidSlot(s) && block == Now(sv).At(s)
    {
      if block != 0 {
        SlotInVolume(Now(sv), sv.ino, s);
        var used := freemap.IsMarked(block);
        assert used;
      }
    }

    /** A direct block. */
    method MapDirect(sv: SfsVnode, fileblock: nat, doalloc: bool) returns (r: BlockResult)
      requires Valid() && Now(sv).Ok(sv.ino) && sv.inode.blocks < WORD_LIMIT && fileblock < NDIRECT
      modifies this, freemap.v, sv
      ensures Valid() && Now(sv).Ok(sv.ino) && sv.inode.blocks < WORD_LIMIT
      ensures Grows(old(Now(sv)), Now(sv), sv.ino, if doalloc then {Slot(Direct(fileblock), [])} else {})
      ensures Maps(old(Now(sv)), Now(sv), Slot(Direct(fileblock), []), doalloc, r)
      ensures sv.refcount == old(sv.refcount)
    {
      hide Grows, TreeOk;
      ghost var s := Slot(Direct(fileblock), []);
      ghost var a := Now(sv);
      GrowsReflexive(a, sv.ino, if doalloc then {s} else {});
      var block := sv.inode.direct[fileblock];
      if block == 0 && doalloc {
        var ok, b := AllocRoot(sv, Direct(fileblock));
        if !ok {
          return Failed(ENOSPC);
        }
        block := b;
      }
      GrowsCounts(a, Now(sv), sv.ino, if doalloc then {s} else {});
      CheckUsed(sv, s, block);
      r := Block(block);
    }

    /**
     * A block behind the indirect block `root`, reached through the indices `path`. An index outside the
     * buffer is where the C code would read past its array.
     */
    method MapIndirect(sv: SfsVnode, root: Root, path: seq<nat>, doalloc: bool) returns (r: BlockResult)
      requires Valid() && Now(sv).Ok(sv.ino) && sv.inode.blocks < WORD_LIMIT
      requires |path| == Depth(root) > 0
      modifies this, freemap.v, sv
      ensures Valid() && Now(sv).Ok(sv.ino) && sv.inode.blocks < WORD_LIMIT
      ensures Grows(old(Now(sv)), Now(sv), sv.ino, if doalloc then Prefixes(Slot(root, path)) else {})
      ensures ValidSlot(Slot(root, path)) ==> Maps(old(Now(sv)), Now(sv), Slot(root, path), doalloc, r)
      ensures !ValidSlot(Slot(root, path)) ==>
                r.OutOfBounds? || (r == Failed(ENOSPC) && forall b: nat | b < |disk| :: b in owner)
                || (r == Block(0) && !doalloc && RootPtr(old(sv.inode), root) == 0)
      ensures !doalloc && RootPtr(old(sv.inode), root) == 0 ==> Now(sv) == old(Now(sv))
      ensures sv.refcount == old(sv.refcount)
    {
      hide Grows, TreeOk, Ptr, PrefixesTo, MissingUpTo;
      ghost var s := Slot(root, path);
      ghost var a := Now(sv);
      RootOf(a, root);
      PrefixesGrow(s, 0);
      var idblock := RootPtr(sv.inode, root);
      if idblock == 0 && !doalloc {
        GrowsReflexive(a, sv.ino, {});
        if ValidSlot(s) {
          EmptyRoot(a, s);
        }
        return Block(0);
      }
      var ok, id, buf := LoadBuffer(sv, Prefix(s, 0), root, idblock, 0, doalloc);
      GrowsCounts(a, Now(sv), sv.ino, if doalloc then PrefixesTo(s, 0) else {});
      if !ok {
        GrowsReflexive(a, sv.ino, Prefixes(s));
        if ValidSlot(s) {
          EmptyRoot(a, s);
        }
        return Failed(ENOSPC);
      }
      ArrivedAtRoot(a, Now(sv), s, doalloc);
      r := WalkDown(sv, root, path, a, id, buf, doalloc);
    }

    /** From the loaded root down to the deepest indirect block. */
    method WalkDown(sv: SfsVnode, root: Root, path: seq<nat>, ghost a: Snap, id0: nat, buf0: seq<nat>, doalloc: bool)
      returns (r: BlockResult)
      requires |path| == Depth(root) > 0 && Arrived(a, Now(sv), Slot(root, path), 0, doalloc)
      requires Valid() && Now(sv).Ok(sv.ino) && sv.inode.blocks < WORD_LIMIT
      requires Loaded(sv, Prefix(Slot(root, path), 0), id0, buf0, doalloc)
      requires Grows(a, Now(sv), sv.ino, if doalloc then PrefixesTo(Slot(root, path), 0) else {})
      modifies this, freemap.v, sv
      ensures Valid() && Now(sv).Ok(sv.ino) && sv.inode.blocks < WORD_LIMIT
      ensures Grows(a, Now(sv), sv.ino, if doalloc then Prefixes(Slot(root, path)) else {})
      ensures ValidSlot(Slot(root, path)) ==> Maps(a, Now(sv), Slot(root, path), doalloc, r)
      ensures !ValidSlot(Slot(root, path)) ==>
                r.OutOfBounds? || (r == Failed(ENOSPC) && forall b: nat | b < |disk| :: b in owner)
      ensures sv.refcount == old(sv.refcount)
    {
      hide Grows, TreeOk, Ptr, PrefixesTo, MissingUpTo, LostBy, Maps, Loaded, Valid, IsImage, Arrived;
      ghost var s := Slot(root, path);
      ArrivedShape(a, Now(sv), s, 0, doalloc);
      var ok, id, buf := true, id0, buf0;
      var i := 0;
      while i < |path| - 1
        invariant Valid() && Now(sv).Ok(sv.ino) && sv.inode.blocks < WORD_LIMIT && sv.refcount == old(sv.refcount)
        invariant 0 <= i <= |path| - 1 && a.inode.Shape() && Arrived(a, Now(sv), s, i, doalloc)
        invariant Loaded(sv, Prefix(s, i), id, buf, doalloc)
        invariant Grows(a, Now(sv), sv.ino, if doalloc then PrefixesTo(s, i) else {})
      {
        if path[i] >= DBPERIDB {
          PrefixesGrow(s, i);
          GrowsWiden(a, Now(sv), sv.ino, if doalloc then PrefixesTo(s, i) else {}, if doalloc then Prefixes(s) else {});
          return OutOfBounds;
        }
        ok, id, buf := StepDown(sv, s, i, a, root, id, buf, path[i], doalloc);
        if !ok {
          PrefixesGrow(s, i + 1);
          GrowsWiden(a, Now(sv), sv.ino, if doalloc then PrefixesTo(s, i + 1) else {},
                     if doalloc then Prefixes(s) else {});
          if ValidSlot(s) {
            NotYet(s, i + 1);
            GrowsElsewhere(a, Now(sv), sv.ino, if doalloc then PrefixesTo(s, i + 1) else {}, s);
            MapsFull(a, Now(sv), s, doalloc);
          }
          return Failed(ENOSPC);
        }
        i := i + 1;
      }
      r := MapLast(sv, s, i, a, id, buf, path[i], doalloc);
    }

    /** One step of WalkDown: from depth `i` to depth `i + 1`. */
    method StepDown(sv: SfsVnode, ghost s: Slot, ghost i: nat, ghost a: Snap, root: Root,
                    id: nat, buf: seq<nat>, blockno: nat, doalloc: bool)
      returns (ok: bool, id': nat, buf': seq<nat>)
      requires s.root == root && i + 1 < |s.path| == Depth(root) && blockno == s.path[i] < DBPERIDB
      requires Arrived(a, Now(sv), s, i, doalloc)
      requires Valid() && Now(sv).Ok(sv.ino) && sv.inode.blocks < WORD_LIMIT
      requires Loaded(sv, Prefix(s, i), id, buf, doalloc)
      requires Grows(a, Now(sv), sv.ino, if doalloc then PrefixesTo(s, i) else {})
      modifies this, freemap.v, sv
      ensures Valid() && Now(sv).Ok(sv.ino) && sv.inode.blocks < WORD_LIMIT && sv.refcount == old(sv.refcount)
      ensures Grows(a, Now(sv), sv.ino, if doalloc then PrefixesTo(s, i + 1) else {})
      ensures ok ==> Arrived(a, Now(sv), s, i + 1, doalloc) && Loaded(sv, Prefix(s, i + 1), id', buf', doalloc)
      ensures !ok ==> forall b: nat | b < |disk| :: b in owner
      ensures !ok && ValidSlot(s) ==> a.At(s) == 0 && (!doalloc ==> LostBy(a, s) > 0)
    {
      hide Grows, TreeOk, Ptr, PrefixesTo, MissingUpTo, LostBy, Arrived;
      ghost var b := Now(sv);
      ArrivedShape(a, b, s, i, doalloc);
      PrefixStep(s, i);
      ok, id', buf' := Descend(sv, Prefix(s, i), root, id, buf, blockno, doalloc);
      ghost var s1 := if doalloc then PrefixesTo(s, i) else {};
      ghost var s2 := if doalloc then {Prefix(s, i + 1)} else {};
      GrowsTransitive(a, b, Now(sv), sv.ino, s1, s2);
      assert s1 + s2 == if doalloc then PrefixesTo(s, i + 1) else {};
      if !doalloc {
        GrowsElsewhere(a, b, sv.ino, {}, Prefix(s, i + 1));
      }
      ArrivedFurther(a, b, Now(sv), sv.ino, s, i, doalloc, ok);
    }

    /** The last step of the way to `s`: the pointer in the deepest indirect block. */
    method MapLast(sv: SfsVnode, ghost s: Slot, ghost i: nat, ghost a: Snap,
                   id: nat, buf: seq<nat>, blockno: nat, doalloc: bool)
      returns (r: BlockResult)
      requires |s.path| == Depth(s.root) == i + 1 && blockno == s.path[i] && Arrived(a, Now(sv), s, i, doalloc)
      requires Valid() && Now(sv).Ok(sv.ino) && sv.inode.blocks < WORD_LIMIT
      requires Loaded(sv, Prefix(s, i), id, buf, doalloc)
      requires Grows(a, Now(sv), sv.ino, if doalloc then PrefixesTo(s, i) else {})
      modifies this, freemap.v, sv
      ensures Valid() && Now(sv).Ok(sv.ino) && sv.inode.blocks < WORD_LIMIT
      ensures Grows(a, Now(sv), sv.ino, if doalloc then Prefixes(s) else {})
      ensures ValidSlot(s) ==> Maps(a, Now(sv), s, doalloc, r)
      ensures !ValidSlot(s) ==> r.OutOfBounds?
      ensures sv.refcount == old(sv.refcount)
    {
      hide Grows, TreeOk, Ptr, PrefixesTo, MissingUpTo, Maps, Arrived, LostBy, Valid, Loaded, IsImage;
      ghost var b := Now(sv);
      ArrivedShape(a, b, s, i, doalloc);
      PrefixStep(s, i);
      PrefixesGrow(s, i);
      PrefixesGrow(s, i + 1);
      GrowsWiden(a, b, sv.ino, if doalloc then PrefixesTo(s, i) else {}, if doalloc then Prefixes(s) else {});
      if blockno >= DBPERIDB {
        return OutOfBounds;
      }
      if ValidSlot(s) && a.At(s) != 0 {
        FullWay(a, s, i);
      } else if ValidSlot(s) {
        NotYet(s, i);
        GrowsElsewhere(a, b, sv.ino, if doalloc then PrefixesTo(s, i) else {}, s);
      }
      r := GetBlock(sv, Prefix(s, i), id, buf, blockno, doalloc);
      ghost var s1 := if doalloc then PrefixesTo(s, i) else {};
      ghost var s2 := if doalloc then {s} else {};
      GrowsTransitive(a, b, Now(sv), sv.ino, s1, s2);
      GrowsCounts(b, Now(sv), sv.ino, s2);
      assert s1 + s2 == if doalloc then Prefixes(s) else {};
      if r.Block? {
        CheckUsed(sv, s, r.block);
      }
      MapsLast(a, b, Now(sv), s, i, doalloc, r);
    }

    /**
     * sfs_bmap: the disk block of block `fileblock` of the file, allocated if `doalloc` is set. On every
     * outcome the file's tree stays separated from everything else and no existing pointer changes.
     */
    method Bmap(sv: SfsVnode, fileblock: nat, doalloc: bool) returns (r: BlockResult)
      requires Valid() && Now(sv).Ok(sv.ino) && sv.inode.blocks < WORD_LIMIT
      modifies this, freemap.v, sv
      ensures Valid() && Now(sv).Ok(sv.ino) && sv.inode.blocks < WORD_LIMIT
      ensures Grows(old(Now(sv)), Now(sv), sv.ino, if doalloc then WayTo(fileblock) else {})
      ensures PlaceOf(fileblock).At? ==> Maps(old(Now(sv)), Now(sv), PlaceOf(fileblock).slot, doalloc, r)
      ensures r.Block? ==> r.block == BlockOf(ImageOf(disk), sv.inode, fileblock)
      ensures r.Block? && doalloc ==> r.block != 0
      ensures r == Failed(EINVAL) <==> MAXFILEBLOCK <= fileblock
      ensures r.OutOfBounds? ==> FAULTBLOCK <= fileblock < MAXFILEBLOCK
      ensures r.Failed? && r != Failed(EINVAL) ==> r == Failed(ENOSPC) && forall b: nat | b < |disk| :: b in owner
      ensures FAULTBLOCK <= fileblock < MAXFILEBLOCK && doalloc ==> !r.Block?
      ensures !doalloc && Shallow(old(sv.inode)) ==> Now(sv) == old(Now(sv))
      ensures BlockOf(ImageOf(old(disk)), old(sv.inode), fileblock) != 0 ==> r.Block? && Now(sv) == old(Now(sv))
      ensures sv.refcount == old(sv.refcount)
    {
      hide Grows, TreeOk, Ptr, PrefixesTo, LostBy, IndexesOf;
      PlaceExists(fileblock);
      if Shallow(sv.inode) {
        ShallowLookup(Now(sv), fileblock);
      }
      var place := IndexesOf(fileblock);
      if place.root.Direct? {
        PrefixesGrow(place, 0);
        r := MapDirect(sv, place.root.i, doalloc);
      } else {
        var f := fileblock - NDIRECT;
        var idnum := f / (DBPERIDB + DBPERIDB * DBPERIDB + DBPERIDB * DBPERIDB * DBPERIDB);
        if idnum > 0 {
          GrowsReflexive(Now(sv), sv.ino, if doalloc then WayTo(fileblock) else {});
          return Failed(EINVAL);
        }
        r := MapIndirect(sv, place.root, place.path, doalloc);
      }
    }
  }

  /** The pointers that mapping block `fileblock` may fill in. */
  function WayTo(fileblock: nat): set<Slot> {
    Prefixes(IndexesOf(fileblock))
  }

  /** Among them there is one data pointer at most: that of the block itself. */
  lemma WayToOneBlock(fileblock: nat, other: nat)
    requires PlaceOf(other).At? && PlaceOf(other).slot in WayTo(fileblock)
    ensures other == fileblock
  {
    PlaceRoundTrip(other);
    PlaceRoundTrip(fileblock);
  }
}
