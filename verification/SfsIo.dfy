/** File I/O: sfs_partialio, sfs_blockio, sfs_io, against a file that is a sequence of bytes. */
module SfsIo {
  import opened SfsLayout
  import opened SfsTree
  import opened SfsMap
  import opened SfsVolume
  import opened SfsSpace
  import opened UioModel
  import opened Errno

  datatype IoResult = Done | IoFailed(e: Errno) | Fault

  const OFF_LIMIT: nat := 0x8000_0000

  // ----- a file as bytes

  function ByteAt(a: Snap, i: nat): byte
    requires a.inode.Shape()
  {
    FileByte(a.disk, a.inode, i)
  }

  function BytesFrom(a: Snap, off: nat, n: nat): (s: seq<byte>)
    requires a.inode.Shape()
    ensures |s| == n
  {
    seq<byte>(n, k requires 0 <= k < n => ByteAt(a, off + k))
  }

  /** The contents of a file: as many bytes as its size says. */
  function Contents(a: Snap): (s: seq<byte>)
    requires a.inode.Shape()
  {
    BytesFrom(a, 0, a.inode.size)
  }

  /** Nothing but zeros is stored behind the end of the file. */
  ghost predicate TailZero(a: Snap)
    requires a.inode.Shape()
  {
    forall i: nat | i >= a.inode.size :: ByteAt(a, i) == 0
  }

  /** A file as its users see it: its bytes, and whether the space behind its end is clean. */
  datatype FileData = FileData(bytes: seq<byte>, clean: bool)

  ghost function DataOf(a: Snap): FileData
    requires a.inode.Shape()
  {
    FileData(Contents(a), TailZero(a))
  }

  ghost predicate SameBytes(a: Snap, b: Snap)
    requires a.inode.Shape() && b.inode.Shape()
  {
    forall i: nat :: ByteAt(b, i) == ByteAt(a, i)
  }

  /** From `a` to `b` exactly the bytes at `off` and after were replaced by `data`. */
  ghost predicate Wrote(a: Snap, b: Snap, off: nat, data: seq<byte>)
    requires a.inode.Shape() && b.inode.Shape()
  {
    forall i: nat :: ByteAt(b, i) == if off <= i < off + |data| then data[i - off] else ByteAt(a, i)
  }

  /**
   * From `a` to `b` nothing happened to any file but `ino`, no block of the file moved or was freed, and
   * sfi_blocks counted the new blocks.
   */
  ghost predicate OnlyFile(a: Snap, b: Snap, ino: nat) {
    && |b.disk| == |a.disk|
    && GrowsOwners(a, b, ino)
    && (forall x: nat | x in a.owner && x < |a.disk| && !ChargedTo(a.owner[x], ino) :: b.disk[x] == a.disk[x])
    && KeepsInode(a, b)
  }

  ghost predicate KeepsInode(a: Snap, b: Snap) {
    && b.inode.typ == a.inode.typ && b.inode.linkcount == a.inode.linkcount && b.inode.waste == a.inode.waste
    && b.inode.blocks == Wrap(a.inode.blocks + |b.owner| - |a.owner|)
    && StaysClean(a, b)
  }

  lemma KeepsInodeTransitive(a: Snap, b: Snap, c: Snap)
    requires KeepsInode(a, b) && KeepsInode(b, c)
    ensures KeepsInode(a, c)
  {
    hide Wrap;
    WrapShift(a.inode.blocks + |b.owner| - |a.owner|, |c.owner| - |b.owner|);
  }

  lemma OwnersTransitive(a: Snap, b: Snap, c: Snap, ino: nat)
    requires GrowsOwners(a, b, ino) && GrowsOwners(b, c, ino)
    ensures GrowsOwners(a, c, ino)
  {
  }

  lemma OnlyFileTransitive(a: Snap, b: Snap, c: Snap, ino: nat)
    requires OnlyFile(a, b, ino) && OnlyFile(b, c, ino)
    ensures OnlyFile(a, c, ino)
  {
    hide KeepsInode;
    KeepsInodeTransitive(a, b, c);
    OwnersTransitive(a, b, c, ino);
  }

  lemma WroteTransitive(a: Snap, b: Snap, c: Snap, off: nat, d1: seq<byte>, d2: seq<byte>)
    requires a.inode.Shape() && b.inode.Shape() && c.inode.Shape()
    requires Wrote(a, b, off, d1) && Wrote(b, c, off + |d1|, d2)
    ensures Wrote(a, c, off, d1 + d2)
  {
  }

  /** The bytes that the direct and the single-indirect pointers cover. */
  const SHALLOW_LIMIT: nat := (NDIRECT + DBPERIDB) * BLOCKSIZE

  /** Every block of the file that begins before `end` is there. */
  ghost predicate Dense(a: Snap, end: nat) {
    a.inode.Shape() && forall fb: nat | fb * BLOCKSIZE < end :: BlockOf(ImageOf(a.disk), a.inode, fb) != 0
  }

  /** No block was allocated, no pointer changed, and nothing in the inode but perhaps its size. */
  ghost predicate Undisturbed(a: Snap, b: Snap) {
    && a.inode.Shape() && b.inode.Shape()
    && b.owner == a.owner && b.inode == a.inode.(size := b.inode.size)
    && forall s | ValidSlot(s) :: b.At(s) == a.At(s)
  }

  /**
   * What a transfer up to `end` does beyond the bytes. A write loses no block, below SHALLOW_LIMIT it leaves the
   * deeper roots alone, and where every block is there it allocates nothing. A read of a file without deeper
   * roots, or of a range where every block is there, changes nothing at all.
   */
  ghost predicate Tidy(a: Snap, b: Snap, end: nat, write: bool) {
    if write then
      && NoneLost(a, b)
      && (end <= SHALLOW_LIMIT ==>
            b.inode.doubleindirect == a.inode.doubleindirect && b.inode.tripleindirect == a.inode.tripleindirect)
      && (Dense(a, end) ==> Undisturbed(a, b))
    else Shallow(a.inode) || Dense(a, end) ==> b == a
  }

  lemma StillDense(a: Snap, b: Snap, end: nat)
    requires Dense(a, end) && Undisturbed(a, b)
    ensures Dense(b, end)
  {
    forall fb: nat | fb * BLOCKSIZE < end
      ensures BlockOf(ImageOf(b.disk), b.inode, fb) != 0
    {
      assert BlockOf(ImageOf(a.disk), a.inode, fb) != 0;
      assert b.At(PlaceOf(fb).slot) == a.At(PlaceOf(fb).slot);
    }
  }

  lemma TidyTransitive(a: Snap, b: Snap, c: Snap, ino: nat, end: nat, write: bool)
    requires GrowsOwners(a, b, ino) && GrowsOwners(b, c, ino) && Tidy(a, b, end, write) && Tidy(b, c, end, write)
    ensures Tidy(a, c, end, write)
  {
    hide Dense;
    if write {
      NoneLostTransitive(a, b, c, ino);
      if Dense(a, end) {
        StillDense(a, b, end);
      }
    }
  }

  /** A transfer fails before its first byte or between two blocks, with something left to do. */
  predicate Stops(off: nat, off': nat, resid': nat, r: IoResult) {
    !r.Done? ==> off' == off || (off' % BLOCKSIZE == 0 && resid' > 0)
  }

  /** Where every block is there, a transfer cannot fail. */
  ghost predicate Smooth(a: Snap, end: nat, r: IoResult) {
    Dense(a, end) ==> r.Done?
  }

  lemma SmoothDone(a: Snap, end: nat)
    ensures Smooth(a, end, Done)
  {
  }

  lemma SmoothLater(a: Snap, b: Snap, end: nat, write: bool, r: IoResult)
    requires Tidy(a, b, end, write) && Smooth(b, end, r)
    ensures Smooth(a, end, r)
  {
    hide Dense;
    if Dense(a, end) && write {
      StillDense(a, b, end);
    }
  }

  /** Mapping a block below SHALLOW_LIMIT fills in no deeper root. */
  lemma MapIsTidy(a: Snap, b: Snap, ino: nat, fileblock: nat)
    requires a.inode.Shape() && b.inode.Shape() && Grows(a, b, ino, WayTo(fileblock))
    requires BlockOf(ImageOf(a.disk), a.inode, fileblock) != 0 ==> b == a
    ensures Tidy(a, b, (fileblock + 1) * BLOCKSIZE, true)
  {
    hide BlockOf, GrowsOwners, GrowsBlocks, GrowsInode;
    var s := IndexesOf(fileblock);
    PrefixesGrow(s, |s.path|);
    if fileblock < NDIRECT + DBPERIDB {
      forall t | t in WayTo(fileblock)
        ensures t.root == s.root
      {
      }
      RootOf(a, Double);
      RootOf(b, Double);
      RootOf(a, Triple);
      RootOf(b, Triple);
    }
    assert fileblock * BLOCKSIZE < (fileblock + 1) * BLOCKSIZE;
  }

  /** Allocation by sfs_bmap changes no byte of the file. */
  lemma GrowKeepsBytes(a: Snap, b: Snap, ino: nat, changed: set<Slot>)
    requires a.Ok(ino) && b.Ok(ino) && Grows(a, b, ino, changed)
    ensures SameBytes(a, b) && OnlyFile(a, b, ino) && b.inode.size == a.inode.size
  {
    forall i: nat
      ensures ByteAt(b, i) == ByteAt(a, i)
    {
      if PlaceOf(i / BLOCKSIZE).At? {
        GrowKeepsBlock(a, b, ino, changed, PlaceOf(i / BLOCKSIZE).slot);
      }
    }
  }

  lemma GrowKeepsBlock(a: Snap, b: Snap, ino: nat, changed: set<Slot>, s: Slot)
    requires a.Ok(ino) && b.Ok(ino) && Grows(a, b, ino, changed) && ValidSlot(s) && !Interior(s)
    ensures a.At(s) != 0 ==> b.At(s) == a.At(s) < |a.disk| == |b.disk| && b.disk[b.At(s)] == a.disk[a.At(s)]
    ensures a.At(s) == 0 && b.At(s) != 0 ==> b.At(s) < |b.disk| && b.disk[b.At(s)] == ZeroBlock()
  {
    if b.At(s) != 0 {
      SlotInVolume(b, ino, s);
    }
    if a.At(s) != 0 {
      SlotInVolume(a, ino, s);
    }
  }

  /** No other file sees anything of it. */
  lemma OnlyFileFrames(a: Snap, b: Snap, ino: nat, ino2: nat, n2: Inode)
    requires OnlyFile(a, b, ino) && ino2 != ino
    requires TreeOk(ImageOf(a.disk), a.owner, ino2, n2)
    ensures TreeOk(ImageOf(b.disk), b.owner, ino2, n2)
    ensures forall s | ValidSlot(s) :: Ptr(ImageOf(b.disk), n2, s) == Ptr(ImageOf(a.disk), n2, s)
    ensures forall i: nat :: FileByte(b.disk, n2, i) == FileByte(a.disk, n2, i)
  {
    FrameTree(ImageOf(a.disk), ImageOf(b.disk), a.owner, b.owner, ino2, n2);
  }

  /** Splicing bytes into one block is the same as writing them at that place of the file. */
  lemma SplicedBytes(a: Snap, b: Snap, fb: nat, x: Block, y: Block, skip: nat, data: seq<byte>)
    requires a.inode.Shape() && b.inode.Shape() && skip + |data| <= BLOCKSIZE && y == Splice(x, skip, data)
    requires forall i: nat | i / BLOCKSIZE == fb :: ByteAt(a, i) == x[i % BLOCKSIZE]
    requires forall i: nat :: ByteAt(b, i) == if i / BLOCKSIZE == fb then y[i % BLOCKSIZE] else ByteAt(a, i)
    ensures Wrote(a, b, fb * BLOCKSIZE + skip, data)
  {
    forall i: nat
      ensures ByteAt(b, i) == if fb * BLOCKSIZE + skip <= i < fb * BLOCKSIZE + skip + |data|
                              then data[i - (fb * BLOCKSIZE + skip)] else ByteAt(a, i)
    {
      if i / BLOCKSIZE == fb {
        assert i % BLOCKSIZE == i - fb * BLOCKSIZE;
      }
    }
  }

  /** One data block of the file is overwritten. */
  lemma BlockWritten(a: Snap, b: Snap, ino: nat, fb: nat, x: Block, skip: nat, data: seq<byte>)
    requires a.Ok(ino) && BlockOf(ImageOf(a.disk), a.inode, fb) != 0 && a.inode.blocks < WORD_LIMIT
    requires BlockOf(ImageOf(a.disk), a.inode, fb) < |a.disk|
    requires skip + |data| <= BLOCKSIZE
    requires x == Splice(a.disk[BlockOf(ImageOf(a.disk), a.inode, fb)], skip, data)
    requires b == a.(disk := a.disk[BlockOf(ImageOf(a.disk), a.inode, fb) := x])
    ensures b.Ok(ino) && Wrote(a, b, fb * BLOCKSIZE + skip, data) && OnlyFile(a, b, ino)
    ensures forall s | ValidSlot(s) :: b.At(s) == a.At(s)
  {
    WriteOneBlock(a.disk, a.owner, ino, a.inode, fb, x);
    SlotInVolume(a, ino, PlaceOf(fb).slot);
    SplicedBytes(a, b, fb, a.disk[BlockOf(ImageOf(a.disk), a.inode, fb)], x, skip, data);
  }

  /** What a block of the file reads as. */
  lemma BlockRead(a: Snap, ino: nat, fb: nat, skip: nat, n: nat, buf: Block)
    requires a.Ok(ino) && skip + n <= BLOCKSIZE
    requires var p := BlockOf(ImageOf(a.disk), a.inode, fb);
             if p == 0 then buf == ZeroBlock() else p < |a.disk| && buf == a.disk[p]
    ensures buf[skip..skip + n] == BytesFrom(a, fb * BLOCKSIZE + skip, n)
  {
    var out, expected := buf[skip..skip + n], BytesFrom(a, fb * BLOCKSIZE + skip, n);
    forall k: nat | k < n
      ensures out[k] == expected[k]
    {
      InBlock(fb, skip + k);
      assert fb * BLOCKSIZE + skip + k == fb * BLOCKSIZE + (skip + k);
      assert expected[k] == ByteAt(a, fb * BLOCKSIZE + (skip + k));
    }
  }

  lemma InBlock(fb: nat, o: nat)
    requires o < BLOCKSIZE
    ensures (fb * BLOCKSIZE + o) / BLOCKSIZE == fb && (fb * BLOCKSIZE + o) % BLOCKSIZE == o
  {
  }

  // ----- the operations

  /**
   * From `a` to `b` and from `u` to `v` some bytes went between file `ino` and memory: the uio has moved
   * forward by as many bytes in the file as in memory, the residue has shrunk by as many, and it is those
   * bytes that were copied.
   */
  ghost predicate Moved(a: Snap, b: Snap, ino: nat, u: UioState, v: UioState, write: bool) {
    && a.inode.Shape() && b.inode.Shape()
    && OnlyFile(a, b, ino) && b.inode.size == a.inode.size
    && u.offset <= v.offset
    && v.offset + v.resid == u.offset + u.resid
    && v.base + v.len == u.base + u.len
    && v.offset - u.offset == v.base - u.base
    && Tidy(a, b, u.offset + u.resid, write)
    && Transferred(a, b, u.mem, u.base, u.offset, write, v.mem, v.offset - u.offset)
  }

  /** `moved` bytes at `off` went between the file, `a` before and `b` after, and the memory at `base`. */
  ghost predicate Transferred(a: Snap, b: Snap, mem: seq<byte>, base: nat, off: nat, write: bool,
                              mem': seq<byte>, moved: nat)
    requires a.inode.Shape() && b.inode.Shape()
  {
    && base + moved <= |mem| && |mem'| == |mem|
    && (write ==> mem' == mem && Wrote(a, b, off, mem[base..base + moved]))
    && (!write ==> SameBytes(a, b) && mem' == Splice(mem, base, BytesFrom(a, off, moved)))
  }

  lemma TransferredMore(a: Snap, b: Snap, c: Snap, mem0: seq<byte>, base: nat, off: nat, write: bool,
                        mem1: seq<byte>, m1: nat, mem2: seq<byte>, m2: nat)
    requires a.inode.Shape() && b.inode.Shape() && c.inode.Shape()
    requires Transferred(a, b, mem0, base, off, write, mem1, m1)
    requires Transferred(b, c, mem1, base + m1, off + m1, write, mem2, m2)
    ensures Transferred(a, c, mem0, base, off, write, mem2, m1 + m2)
  {
    if write {
      var d1, d2 := mem0[base..base + m1], mem0[base + m1..base + m1 + m2];
      assert d1 + d2 == mem0[base..base + m1 + m2];
      WroteTransitive(a, b, c, off, d1, d2);
    } else {
      var d1, d2 := BytesFrom(a, off, m1), BytesFrom(b, off + m1, m2);
      assert d1 + d2 == BytesFrom(a, off, m1 + m2);
      SpliceSplice(mem0, base, d1, d2);
    }
  }

  lemma MovedMore(a: Snap, b: Snap, c: Snap, ino: nat, u: UioState, v: UioState, w: UioState, write: bool)
    requires Moved(a, b, ino, u, v, write) && Moved(b, c, ino, v, w, write)
    ensures Moved(a, c, ino, u, w, write)
  {
    hide KeepsInode, Transferred, Tidy;
    OnlyFileTransitive(a, b, c, ino);
    TidyTransitive(a, b, c, ino, u.offset + u.resid, write);
    TransferredMore(a, b, c, u.mem, u.base, u.offset, write, v.mem, v.offset - u.offset, w.mem, w.offset - v.offset);
  }

  lemma MovedNothing(a: Snap, ino: nat, u: UioState, write: bool)
    requires a.inode.Shape() && a.inode.blocks < WORD_LIMIT && u.base <= |u.mem|
    ensures Moved(a, a, ino, u, u, write)
  {
    NothingMoved(a, a, u.mem, u.base, u.offset, write);
  }

  lemma MovedFrame(a: Snap, b: Snap, ino: nat, u: UioState, v: UioState, write: bool)
    requires Moved(a, b, ino, u, v, write)
    ensures u.offset <= v.offset && v.offset + v.resid == u.offset + u.resid && v.base + v.len == u.base + u.len
    ensures v.offset - u.offset == v.base - u.base && |v.mem| == |u.mem| && b.inode.size == a.inode.size
  {
  }

  lemma MovedTidy(a: Snap, b: Snap, ino: nat, u: UioState, v: UioState, write: bool)
    requires Moved(a, b, ino, u, v, write)
    ensures Tidy(a, b, u.offset + u.resid, write)
  {
    hide OnlyFile, Transferred, Tidy;
  }

  /**
   * A write over the file blocks from `lo` to `hi - 1` fills in the pointers on the ways to them: all when it is
   * done, not all when there is no space. Nothing is said beyond the reach of the index arithmetic.
   */
  ghost predicate Covers(a: Snap, b: Snap, lo: nat, hi: nat, write: bool, r: IoResult) {
    && a.inode.Shape() && b.inode.Shape()
    && (write && hi <= FAULTBLOCK ==> Fills(a, b, WaysTo(lo, hi), r.Done?, r == IoFailed(ENOSPC)))
  }

  lemma CoversNothing(a: Snap, lo: nat, write: bool)
    requires a.inode.Shape()
    ensures Covers(a, a, lo, lo, write, Done)
  {
    hide Ptr;
    FillsNothing(a);
    assert WaysTo(lo, lo) == {};
  }

  lemma CoversOne(a: Snap, b: Snap, c: Snap, fb: nat, write: bool, m: BlockResult)
    requires a.inode.Shape() && b.inode.Shape() && c.inode.Shape()
    requires write && fb < FAULTBLOCK ==> Fills(a, b, WayTo(fb), m.Block?, m == Failed(ENOSPC))
    requires write ==> forall s | ValidSlot(s) :: c.At(s) == b.At(s)
    ensures Covers(a, c, fb, fb + 1, write, Outcome(m))
  {
    hide Ptr, Fills, WayTo, WaysTo;
    OneWay(fb);
    if write && fb < FAULTBLOCK {
      FillsSame(a, b, c, WayTo(fb), m.Block?, m == Failed(ENOSPC));
    }
  }

  lemma CoversMore(a: Snap, b: Snap, c: Snap, lo: nat, mid: nat, hi: nat, write: bool, r: IoResult)
    requires lo <= mid <= hi && Covers(a, b, lo, mid, write, Done) && Covers(b, c, mid, hi, write, r)
    ensures Covers(a, c, lo, hi, write, r)
  {
    hide Ptr, Fills, WaysTo;
    WaysSplit(lo, mid, hi);
    if write && hi <= FAULTBLOCK {
      FillsMore(a, b, c, WaysTo(lo, mid), WaysTo(mid, hi), r.Done?, r == IoFailed(ENOSPC));
    }
  }

  lemma CoversPart(a: Snap, b: Snap, lo: nat, mid: nat, hi: nat, write: bool, r: IoResult)
    requires lo <= mid <= hi && Covers(a, b, lo, mid, write, r) && !r.Done?
    ensures Covers(a, b, lo, hi, write, r)
  {
    hide Ptr, Fills, WaysTo;
    WaysSplit(lo, mid, hi);
    if write && hi <= FAULTBLOCK {
      FillsWiden(a, b, WaysTo(lo, mid), WaysTo(lo, hi), r == IoFailed(ENOSPC));
    }
  }

  /** The size of the file does not matter. */
  lemma CoversSize(a: Snap, b: Snap, c: Snap, lo: nat, hi: nat, write: bool, r: IoResult)
    requires Covers(a, b, lo, hi, write, r) && c == b.(inode := b.inode.(size := c.inode.size), dirty := c.dirty)
    ensures Covers(a, c, lo, hi, write, r)
  {
    hide Ptr, Fills, WaysTo;
    forall s | ValidSlot(s)
      ensures c.At(s) == b.At(s)
    {
      SamePtr(ImageOf(b.disk), b.inode, c.inode, s);
    }
    if write && hi <= FAULTBLOCK {
      FillsSame(a, b, c, WaysTo(lo, hi), r.Done?, r == IoFailed(ENOSPC));
    }
  }

  /** The call of sfs_bmap that starts every transfer. */
  method LookUp(vol: Volume, sv: SfsVnode, fileblock: nat, doalloc: bool) returns (m: BlockResult)
    requires vol.Valid() && vol.Now(sv).Ok(sv.ino) && sv.inode.blocks < WORD_LIMIT
    modifies vol, vol.freemap.v, sv
    ensures vol.Valid() && vol.Now(sv).Ok(sv.ino) && sv.inode.blocks < WORD_LIMIT
    ensures OnlyFile(old(vol.Now(sv)), vol.Now(sv), sv.ino) && sv.inode.size == old(sv.inode.size)
    ensures SameBytes(old(vol.Now(sv)), vol.Now(sv))
    ensures m.Block? ==> m.block == BlockOf(ImageOf(vol.disk), sv.inode, fileblock) < |vol.disk|
    ensures m.Block? && doalloc ==> m.block != 0
    ensures !m.Block? ==> Explained(vol.Now(sv), fileblock * BLOCKSIZE, Outcome(m))
    ensures Tidy(old(vol.Now(sv)), vol.Now(sv), (fileblock + 1) * BLOCKSIZE, doalloc)
    ensures Smooth(old(vol.Now(sv)), (fileblock + 1) * BLOCKSIZE, Outcome(m))
    ensures doalloc && fileblock < FAULTBLOCK ==>
              Fills(old(vol.Now(sv)), vol.Now(sv), WayTo(fileblock), m.Block?, m == Failed(ENOSPC))
    ensures sv.refcount == old(sv.refcount)
  {
    hide TreeOk, Grows, Wrote, OnlyFile, BlockOf, Maps, WayTo, Tidy, Smooth, SameBytes, Fills;
    PlaceExists(fileblock);
    ghost var a := vol.Now(sv);
    m := vol.Bmap(sv, fileblock, doalloc);
    ghost var b := vol.Now(sv);
    GrowKeepsBytes(a, b, sv.ino, if doalloc then WayTo(fileblock) else {});
    LookUpTidy(a, b, sv.ino, fileblock, doalloc, m);
    if doalloc && fileblock < FAULTBLOCK {
      MapFills(a, b, sv.ino, fileblock, m);
    }
    if m.Block? {
      BlockInVolume(b, sv.ino, fileblock);
    }
  }

  lemma LookUpTidy(a: Snap, b: Snap, ino: nat, fileblock: nat, doalloc: bool, m: BlockResult)
    requires a.inode.Shape() && b.inode.Shape()
    requires Grows(a, b, ino, if doalloc then WayTo(fileblock) else {})
    requires BlockOf(ImageOf(a.disk), a.inode, fileblock) != 0 ==> m.Block? && b == a
    requires !doalloc && Shallow(a.inode) ==> b == a
    ensures Tidy(a, b, (fileblock + 1) * BLOCKSIZE, doalloc) && Smooth(a, (fileblock + 1) * BLOCKSIZE, Outcome(m))
  {
    hide Grows, BlockOf, WayTo;
    assert fileblock * BLOCKSIZE < (fileblock + 1) * BLOCKSIZE;
    if doalloc {
      MapIsTidy(a, b, ino, fileblock);
    }
  }

  lemma BlockInVolume(a: Snap, ino: nat, fb: nat)
    requires a.Ok(ino) && |a.disk| > 0
    ensures BlockOf(ImageOf(a.disk), a.inode, fb) < |a.disk|
  {
    if BlockOf(ImageOf(a.disk), a.inode, fb) != 0 {
      SlotInVolume(a, ino, PlaceOf(fb).slot);
    }
  }

  function Outcome(m: BlockResult): IoResult {
    match m
    case Block(_) => Done
    case Failed(e) => IoFailed(e)
    case OutOfBounds => Fault
  }

  /** Why a transfer stopped at offset `off`. */
  ghost predicate Explained(b: Snap, off: nat, r: IoResult) {
    && (r.IoFailed? ==> r.e == EINVAL || r.e == ENOSPC)
    && (r == IoFailed(EINVAL) ==> MAXFILEBLOCK <= off / BLOCKSIZE)
    && (r == IoFailed(ENOSPC) ==> forall x: nat | x < |b.disk| :: x in b.owner)
    && (r.Fault? ==> FAULTBLOCK <= off / BLOCKSIZE < MAXFILEBLOCK)
  }

  /** sfs_partialio: I/O on `len` bytes of one block, `skipstart` bytes into it. */
  method PartialIo(vol: Volume, sv: SfsVnode, uio: Uio, skipstart: nat, len: nat) returns (r: IoResult)
    requires vol.Valid() && vol.Now(sv).Ok(sv.ino) && sv.inode.blocks < WORD_LIMIT && uio.Valid()
    requires skipstart == uio.offset % BLOCKSIZE && skipstart + len <= BLOCKSIZE && len <= uio.resid
    requires skipstart != 0 || len > 0
    modifies vol, vol.freemap.v, sv, uio
    ensures vol.Valid() && vol.Now(sv).Ok(sv.ino) && sv.inode.blocks < WORD_LIMIT && uio.Valid()
    ensures Moved(old(vol.Now(sv)), vol.Now(sv), sv.ino, old(uio.Now()), uio.Now(), uio.write)
    ensures uio.offset == old(uio.offset) + (if r.Done? then len else 0)
    ensures Explained(vol.Now(sv), uio.offset, r)
    ensures Covers(old(vol.Now(sv)), vol.Now(sv), old(uio.offset) / BLOCKSIZE, old(uio.offset) / BLOCKSIZE + 1,
            uio.write, r)
    ensures Smooth(old(vol.Now(sv)), old(uio.offset + uio.resid), r)
    ensures sv.refcount == old(sv.refcount)
  {
    hide TreeOk, Grows, OnlyFile, BlockOf, Moved, Explained, Volume.Valid, Tidy, Smooth, Dense, Ptr, Transferred,
      SameBytes, Covers, Fills, WayTo;
    ghost var a, u := vol.Now(sv), uio.Now();
    var fileblock := uio.offset / BLOCKSIZE;
    var m := LookUp(vol, sv, fileblock, uio.write);
    ghost var b := vol.Now(sv);
    TidyFurther(a, b, fileblock, u.offset, u.resid, uio.write, Outcome(m));
    if !m.Block? {
      NothingMoved(a, b, u.mem, u.base, u.offset, uio.write);
      MovedByParts(a, b, sv.ino, u, u, uio.write);
      ExplainedAlike(b, fileblock * BLOCKSIZE, uio.offset, Outcome(m));
      CoversOne(a, b, b, fileblock, uio.write, m);
      r := Outcome(m);
      return;
    }
    var iobuf := ZeroBlock();
    if m.block != 0 {
      iobuf := vol.disk[m.block];
    }
    var moved := uio.Move(iobuf[skipstart..skipstart + len]);
    if uio.write {
      iobuf := Splice(iobuf, skipstart, moved);
      vol.WriteBlock(m.block, iobuf);
      BlockWritten(b, vol.Now(sv), sv.ino, fileblock, iobuf, skipstart, moved);
    } else {
      BlockRead(b, sv.ino, fileblock, skipstart, len, iobuf);
    }
    r := Done;
    PieceMoved(a, b, vol.Now(sv), sv.ino, u, uio.Now(), uio.write, moved);
    ExplainedDone(vol.Now(sv), uio.offset);
    CoversOne(a, b, vol.Now(sv), fileblock, uio.write, m);
  }

  lemma NothingMoved(a: Snap, b: Snap, mem: seq<byte>, base: nat, off: nat, write: bool)
    requires a.inode.Shape() && b.inode.Shape() && SameBytes(a, b) && base <= |mem|
    ensures Transferred(a, b, mem, base, off, write, mem, 0)
  {
    assert Splice(mem, base, BytesFrom(a, off, 0)) == mem;
  }

  lemma TidyFurther(a: Snap, b: Snap, fileblock: nat, off: nat, resid: nat, write: bool, r: IoResult)
    requires Tidy(a, b, (fileblock + 1) * BLOCKSIZE, write) && Smooth(a, (fileblock + 1) * BLOCKSIZE, r)
    requires fileblock == off / BLOCKSIZE && (off % BLOCKSIZE != 0 || resid > 0)
    ensures Tidy(a, b, off + resid, write) && Smooth(a, off + resid, r)
  {
    DenseUpTo(a, fileblock, off, resid);
  }

  lemma DenseUpTo(a: Snap, fileblock: nat, off: nat, resid: nat)
    requires fileblock == off / BLOCKSIZE && (off % BLOCKSIZE != 0 || resid > 0)
    ensures Dense(a, off + resid) ==> Dense(a, (fileblock + 1) * BLOCKSIZE)
  {
    forall fb: nat | fb * BLOCKSIZE < (fileblock + 1) * BLOCKSIZE
      ensures fb * BLOCKSIZE < off + resid
    {
      assert fb <= fileblock;
    }
  }

  lemma MovedByParts(a: Snap, b: Snap, ino: nat, u: UioState, v: UioState, write: bool)
    requires a.inode.Shape() && b.inode.Shape() && OnlyFile(a, b, ino) && b.inode.size == a.inode.size
    requires u.offset <= v.offset && v.offset + v.resid == u.offset + u.resid && v.base + v.len == u.base + u.len
    requires v.offset - u.offset == v.base - u.base
    requires Transferred(a, b, u.mem, u.base, u.offset, write, v.mem, v.offset - u.offset)
    requires Tidy(a, b, u.offset + u.resid, write)
    ensures Moved(a, b, ino, u, v, write)
  {
  }

  lemma DataWriteTidy(a: Snap, b: Snap, c: Snap, end: nat)
    requires a.inode.Shape() && b.inode.Shape() && Tidy(a, b, end, true) && c == b.(disk := c.disk)
    requires forall s | ValidSlot(s) :: c.At(s) == b.At(s)
    ensures Tidy(a, c, end, true)
  {
    hide Dense, Ptr;
  }

  lemma PieceMoved(a: Snap, b: Snap, c: Snap, ino: nat, u: UioState, v: UioState, write: bool, data: seq<byte>)
    requires a.inode.Shape() && b.inode.Shape() && c.inode.Shape() && u.base + |data| <= |u.mem|
    requires v.offset == u.offset + |data| && v.offset + v.resid == u.offset + u.resid
    requires v.base == u.base + |data| && v.base + v.len == u.base + u.len
    requires SameBytes(a, b) && OnlyFile(a, b, ino) && a.inode.size == b.inode.size == c.inode.size
    requires Tidy(a, b, u.offset + u.resid, write)
    requires write ==> v.mem == u.mem && data == u.mem[u.base..u.base + |data|]
                       && Wrote(b, c, u.offset, data) && OnlyFile(b, c, ino) && c == b.(disk := c.disk)
                       && (forall s | ValidSlot(s) :: c.At(s) == b.At(s))
    requires !write ==> c == b && v.mem == Splice(u.mem, u.base, data) && data == BytesFrom(b, u.offset, |data|)
    ensures Moved(a, c, ino, u, v, write)
  {
    hide OnlyFile, Tidy, Ptr;
    if write {
      OnlyFileTransitive(a, b, c, ino);
      DataWriteTidy(a, b, c, u.offset + u.resid);
    } else {
      assert data == BytesFrom(a, u.offset, |data|);
    }
  }

  lemma ExplainedAlike(b: Snap, off1: nat, off2: nat, r: IoResult)
    requires Explained(b, off1, r) && off1 / BLOCKSIZE == off2 / BLOCKSIZE
    ensures Explained(b, off2, r)
  {
  }

  lemma ExplainedDone(b: Snap, off: nat)
    ensures Explained(b, off, Done)
  {
  }

  /** sfs_rwblock: the device transfers one whole block between the disk and the region. */
  method RwBlock(vol: Volume, uio: Uio) returns (block: Block)
    requires vol.Valid() && uio.Valid() && uio.resid == BLOCKSIZE && uio.offset % BLOCKSIZE == 0
    requires uio.offset / BLOCKSIZE < |vol.disk|
    modifies vol`disk, uio
    ensures vol.Valid() && uio.Valid()
    ensures uio.resid == 0
    ensures uio.offset == old(uio.offset) + BLOCKSIZE
    ensures uio.base == old(uio.base) + BLOCKSIZE && uio.len == old(uio.len) - BLOCKSIZE
    ensures uio.write ==> uio.mem == old(uio.mem) && block == old(uio.Next(BLOCKSIZE))
                          && vol.disk == old(vol.disk)[old(uio.offset) / BLOCKSIZE := block]
    ensures !uio.write ==> vol.disk == old(vol.disk) && block == old(vol.disk)[old(uio.offset) / BLOCKSIZE]
                           && uio.mem == Splice(old(uio.mem), old(uio.base), block)
  {
    var b := uio.offset / BLOCKSIZE;
    block := uio.Move(vol.disk[b]);
    if uio.write {
      vol.WriteBlock(b, block);
    }
  }

  /** The transfer of sfs_blockio once the block is known, with the uio pointed at the device meanwhile. */
  method MoveBlock(vol: Volume, sv: SfsVnode, uio: Uio, block: nat) returns (data: Block)
    requires vol.Valid() && vol.Now(sv).Ok(sv.ino) && sv.inode.blocks < WORD_LIMIT && uio.Valid()
    requires uio.offset % BLOCKSIZE == 0 && uio.resid >= BLOCKSIZE && (uio.write ==> block != 0)
    requires block == BlockOf(ImageOf(vol.disk), sv.inode, uio.offset / BLOCKSIZE) < |vol.disk|
    modifies vol`disk, uio
    ensures vol.Valid() && vol.Now(sv).Ok(sv.ino) && uio.Valid()
    ensures uio.offset == old(uio.offset) + BLOCKSIZE && uio.resid == old(uio.resid) - BLOCKSIZE
    ensures uio.base == old(uio.base) + BLOCKSIZE && uio.len == old(uio.len) - BLOCKSIZE
    ensures uio.write ==> uio.mem == old(uio.mem) && data == old(uio.Next(BLOCKSIZE))
                          && Wrote(old(vol.Now(sv)), vol.Now(sv), old(uio.offset), data)
                          && OnlyFile(old(vol.Now(sv)), vol.Now(sv), sv.ino)
                          && (forall s | ValidSlot(s) :: vol.Now(sv).At(s) == old(vol.Now(sv)).At(s))
    ensures !uio.write ==> vol.disk == old(vol.disk) && uio.mem == Splice(old(uio.mem), old(uio.base), data)
                           && data == BytesFrom(old(vol.Now(sv)), old(uio.offset), BLOCKSIZE)
  {
    hide TreeOk, OnlyFile, BlockOf, Volume.Valid, Ptr, Wrote, BytesFrom;
    ghost var b := vol.Now(sv);
    var fileblock := uio.offset / BLOCKSIZE;
    data := ZeroBlock();
    if block == 0 {
      uio.MoveZeros(BLOCKSIZE);
      assert ZeroBytes(BLOCKSIZE) == data;
      WholeBlockRead(b, sv.ino, fileblock, data);
    } else {
      var saveoff, saveres := uio.offset, uio.resid;
      var diskoff := block * BLOCKSIZE;
      uio.offset, uio.resid := diskoff, BLOCKSIZE;
      data := RwBlock(vol, uio);
      uio.offset, uio.resid := uio.offset - diskoff + saveoff, uio.resid + saveres - BLOCKSIZE;
      if uio.write {
        WholeBlockWritten(b, vol.Now(sv), sv.ino, fileblock, data);
      } else {
        WholeBlockRead(b, sv.ino, fileblock, data);
      }
    }
  }

  /** sfs_blockio: I/O on a whole block. */
  method BlockIo(vol: Volume, sv: SfsVnode, uio: Uio) returns (r: IoResult)
    requires vol.Valid() && vol.Now(sv).Ok(sv.ino) && sv.inode.blocks < WORD_LIMIT && uio.Valid()
    requires uio.offset % BLOCKSIZE == 0 && uio.resid >= BLOCKSIZE
    modifies vol, vol.freemap.v, sv, uio
    ensures vol.Valid() && vol.Now(sv).Ok(sv.ino) && sv.inode.blocks < WORD_LIMIT && uio.Valid()
    ensures Moved(old(vol.Now(sv)), vol.Now(sv), sv.ino, old(uio.Now()), uio.Now(), uio.write)
    ensures uio.offset == old(uio.offset) + (if r.Done? then BLOCKSIZE else 0)
    ensures Explained(vol.Now(sv), uio.offset, r)
    ensures Covers(old(vol.Now(sv)), vol.Now(sv), old(uio.offset) / BLOCKSIZE, old(uio.offset) / BLOCKSIZE + 1,
            uio.write, r)
    ensures Smooth(old(vol.Now(sv)), old(uio.offset + uio.resid), r)
    ensures sv.refcount == old(sv.refcount)
  {
    hide TreeOk, Grows, OnlyFile, BlockOf, Moved, Explained, Volume.Valid, Tidy, Smooth, Dense, Ptr, Transferred,
      SameBytes, Covers, Fills, WayTo;
    ghost var a, u := vol.Now(sv), uio.Now();
    var fileblock := uio.offset / BLOCKSIZE;
    var m := LookUp(vol, sv, fileblock, uio.write);
    ghost var b := vol.Now(sv);
    TidyFurther(a, b, fileblock, u.offset, u.resid, uio.write, Outcome(m));
    if !m.Block? {
      NothingMoved(a, b, u.mem, u.base, u.offset, uio.write);
      MovedByParts(a, b, sv.ino, u, u, uio.write);
      ExplainedAlike(b, fileblock * BLOCKSIZE, uio.offset, Outcome(m));
      CoversOne(a, b, b, fileblock, uio.write, m);
      r := Outcome(m);
      return;
    }
    r := Done;
    var data := MoveBlock(vol, sv, uio, m.block);
    PieceMoved(a, b, vol.Now(sv), sv.ino, u, uio.Now(), uio.write, data);
    ExplainedDone(vol.Now(sv), uio.offset);
    CoversOne(a, b, vol.Now(sv), fileblock, uio.write, m);
  }

  lemma WholeBlockRead(a: Snap, ino: nat, fb: nat, buf: Block)
    requires a.Ok(ino)
    requires var p := BlockOf(ImageOf(a.disk), a.inode, fb);
             if p == 0 then buf == ZeroBlock() else p < |a.disk| && buf == a.disk[p]
    ensures buf == BytesFrom(a, fb * BLOCKSIZE, BLOCKSIZE)
  {
    BlockRead(a, ino, fb, 0, BLOCKSIZE, buf);
    assert buf[0..BLOCKSIZE] == buf;
  }

  lemma WholeBlockWritten(a: Snap, b: Snap, ino: nat, fb: nat, x: Block)
    requires a.Ok(ino) && BlockOf(ImageOf(a.disk), a.inode, fb) != 0 && a.inode.blocks < WORD_LIMIT
    requires BlockOf(ImageOf(a.disk), a.inode, fb) < |a.disk|
    requires b == a.(disk := a.disk[BlockOf(ImageOf(a.disk), a.inode, fb) := x])
    ensures b.Ok(ino) && Wrote(a, b, fb * BLOCKSIZE, x) && OnlyFile(a, b, ino)
    ensures forall s | ValidSlot(s) :: b.At(s) == a.At(s)
  {
    hide TreeOk, Wrote, OnlyFile;
    var before := a.disk[BlockOf(ImageOf(a.disk), a.inode, fb)];
    assert Splice(before, 0, x) == x;
    BlockWritten(a, b, ino, fb, x, 0, x);
  }

  /** The three phases of sfs_io: a leading partial block, whole blocks, a trailing partial block. */
  method TransferAll(vol: Volume, sv: SfsVnode, uio: Uio) returns (r: IoResult)
    requires vol.Valid() && vol.Now(sv).Ok(sv.ino) && sv.inode.blocks < WORD_LIMIT && uio.Valid()
    modifies vol, vol.freemap.v, sv, uio
    ensures vol.Valid() && vol.Now(sv).Ok(sv.ino) && sv.inode.blocks < WORD_LIMIT && uio.Valid()
    ensures Moved(old(vol.Now(sv)), vol.Now(sv), sv.ino, old(uio.Now()), uio.Now(), uio.write)
    ensures r.Done? ==> uio.resid == 0
    ensures Explained(vol.Now(sv), uio.offset, r)
    ensures Covers(old(vol.Now(sv)), vol.Now(sv), old(uio.offset) / BLOCKSIZE, BlockLen(old(uio.offset + uio.resid)),
                   uio.write, r)
    ensures Smooth(old(vol.Now(sv)), old(uio.offset + uio.resid), r)
    ensures Stops(old(uio.offset), uio.offset, uio.resid, r)
    ensures sv.refcount == old(sv.refcount)
  {
    hide TreeOk, Moved, Explained, Volume.Valid, Tidy, Smooth, Dense, Transferred, OnlyFile, Covers, BlockLen;
    ghost var a, u := vol.Now(sv), uio.Now();
    ghost var lo, end, hi := uio.offset / BLOCKSIZE, uio.offset + uio.resid, BlockLen(uio.offset + uio.resid);
    Phases(uio.offset, end);
    CoversNothing(a, lo, uio.write);
    var blkoff := uio.offset % BLOCKSIZE;
    r := Done;
    MovedNothing(a, sv.ino, u, uio.write);
    ExplainedDone(a, uio.offset);
    if blkoff != 0 {
      var len := BLOCKSIZE - blkoff;
      if len > uio.resid {
        len := uio.resid;
      }
      r := PartialIo(vol, sv, uio, blkoff, len);
      MovedFrame(a, vol.Now(sv), sv.ino, u, uio.Now(), uio.write);
      if !r.Done? {
        CoversPart(a, vol.Now(sv), lo, lo + 1, hi, uio.write, r);
        return;
      }
    }
    SmoothDone(a, end);
    if uio.resid == 0 {
      return;
    }
    ghost var b, v := vol.Now(sv), uio.Now();
    r := TransferRest(vol, sv, uio);
    MovedFrame(b, vol.Now(sv), sv.ino, v, uio.Now(), uio.write);
    MovedTidy(a, b, sv.ino, u, v, uio.write);
    SmoothLater(a, b, end, uio.write, r);
    MovedMore(a, b, vol.Now(sv), sv.ino, u, v, uio.Now(), uio.write);
    CoversMore(a, b, vol.Now(sv), lo, v.offset / BLOCKSIZE, hi, uio.write, r);
  }

  /** The second and the third phase, from the beginning of a block on. */
  method TransferRest(vol: Volume, sv: SfsVnode, uio: Uio) returns (r: IoResult)
    requires vol.Valid() && vol.Now(sv).Ok(sv.ino) && sv.inode.blocks < WORD_LIMIT && uio.Valid()
    requires uio.offset % BLOCKSIZE == 0
    modifies vol, vol.freemap.v, sv, uio
    ensures vol.Valid() && vol.Now(sv).Ok(sv.ino) && sv.inode.blocks < WORD_LIMIT && uio.Valid()
    ensures Moved(old(vol.Now(sv)), vol.Now(sv), sv.ino, old(uio.Now()), uio.Now(), uio.write)
    ensures r.Done? ==> uio.resid == 0
    ensures !r.Done? ==> uio.resid > 0 && uio.offset % BLOCKSIZE == 0
    ensures Explained(vol.Now(sv), uio.offset, r)
    ensures Covers(old(vol.Now(sv)), vol.Now(sv), old(uio.offset) / BLOCKSIZE, BlockLen(old(uio.offset + uio.resid)),
                   uio.write, r)
    ensures Smooth(old(vol.Now(sv)), old(uio.offset + uio.resid), r)
    ensures sv.refcount == old(sv.refcount)
  {
    hide TreeOk, Moved, Explained, Volume.Valid, Tidy, Smooth, Dense, Transferred, OnlyFile, Covers, BlockLen;
    ghost var a, u := vol.Now(sv), uio.Now();
    ghost var lo, end, hi := uio.offset / BLOCKSIZE, uio.offset + uio.resid, BlockLen(uio.offset + uio.resid);
    Phases(uio.offset, end);
    r := TransferBlocks(vol, sv, uio);
    ghost var c, w := vol.Now(sv), uio.Now();
    MovedFrame(a, c, sv.ino, u, w, uio.write);
    if !r.Done? {
      CoversPart(a, c, lo, end / BLOCKSIZE, hi, uio.write, r);
      return;
    }
    LastPhase(w.offset, end);
    if uio.resid > 0 {
      r := PartialIo(vol, sv, uio, 0, uio.resid);
      MovedFrame(c, vol.Now(sv), sv.ino, w, uio.Now(), uio.write);
      MovedTidy(a, c, sv.ino, u, w, uio.write);
      SmoothLater(a, c, end, uio.write, r);
      MovedMore(a, c, vol.Now(sv), sv.ino, u, w, uio.Now(), uio.write);
      CoversMore(a, c, vol.Now(sv), lo, end / BLOCKSIZE, hi, uio.write, r);
    }
  }

  lemma LastPhase(off: nat, end: nat)
    requires off <= end < off + BLOCKSIZE && off % BLOCKSIZE == 0
    ensures off / BLOCKSIZE == end / BLOCKSIZE
    ensures BlockLen(end) == if off == end then end / BLOCKSIZE else end / BLOCKSIZE + 1
  {
  }

  /** Where the three phases of a transfer begin and end. */
  lemma Phases(off: nat, end: nat)
    requires off <= end
    ensures off / BLOCKSIZE <= end / BLOCKSIZE
    ensures BlockLen(end) == end / BLOCKSIZE + if end % BLOCKSIZE == 0 then 0 else 1
    ensures off % BLOCKSIZE != 0 ==> off / BLOCKSIZE + 1 <= BlockLen(end)
    ensures off % BLOCKSIZE != 0 && end - off <= BLOCKSIZE - off % BLOCKSIZE ==> BlockLen(end) == off / BLOCKSIZE + 1
    ensures off % BLOCKSIZE == 0 && end == off ==> BlockLen(end) == off / BLOCKSIZE
  {
  }

  /** The loop of sfs_io over whole blocks. */
  method TransferBlocks(vol: Volume, sv: SfsVnode, uio: Uio) returns (r: IoResult)
    requires vol.Valid() && vol.Now(sv).Ok(sv.ino) && sv.inode.blocks < WORD_LIMIT && uio.Valid()
    requires uio.offset % BLOCKSIZE == 0
    modifies vol, vol.freemap.v, sv, uio
    ensures vol.Valid() && vol.Now(sv).Ok(sv.ino) && sv.inode.blocks < WORD_LIMIT && uio.Valid()
    ensures Moved(old(vol.Now(sv)), vol.Now(sv), sv.ino, old(uio.Now()), uio.Now(), uio.write)
    ensures r.Done? ==> uio.resid < BLOCKSIZE && uio.offset % BLOCKSIZE == 0
    ensures Explained(vol.Now(sv), uio.offset, r)
    ensures Covers(old(vol.Now(sv)), vol.Now(sv), old(uio.offset) / BLOCKSIZE, old(uio.offset + uio.resid) / BLOCKSIZE,
                   uio.write, r)
    ensures Smooth(old(vol.Now(sv)), old(uio.offset + uio.resid), r)
    ensures !r.Done? ==> uio.resid > 0 && uio.offset % BLOCKSIZE == 0
    ensures sv.refcount == old(sv.refcount)
  {
    hide TreeOk, Moved, Explained, Volume.Valid, Tidy, Smooth, Dense, Transferred, OnlyFile, Covers;
    ghost var a, u, lo := vol.Now(sv), uio.Now(), uio.offset / BLOCKSIZE;
    MovedNothing(a, sv.ino, u, uio.write);
    CoversNothing(a, lo, uio.write);
    var nblocks := uio.resid / BLOCKSIZE;
    var i := 0;
    r := Done;
    while i < nblocks
      invariant i <= nblocks && r.Done?
      invariant vol.Valid() && vol.Now(sv).Ok(sv.ino) && sv.inode.blocks < WORD_LIMIT && uio.Valid()
      invariant sv.refcount == old(sv.refcount)
      invariant uio.offset == u.offset + i * BLOCKSIZE && uio.offset + uio.resid == u.offset + u.resid
      invariant Moved(a, vol.Now(sv), sv.ino, u, uio.Now(), uio.write)
      invariant Covers(a, vol.Now(sv), lo, lo + i, uio.write, r)
    {
      ghost var b, v := vol.Now(sv), uio.Now();
      r := BlockIo(vol, sv, uio);
      CoversMore(a, b, vol.Now(sv), lo, lo + i, lo + i + 1, uio.write, r);
      MovedFrame(b, vol.Now(sv), sv.ino, v, uio.Now(), uio.write);
      MovedTidy(a, b, sv.ino, u, v, uio.write);
      SmoothLater(a, b, u.offset + u.resid, uio.write, r);
      MovedMore(a, b, vol.Now(sv), sv.ino, u, v, uio.Now(), uio.write);
      if !r.Done? {
        CoversPart(a, vol.Now(sv), lo, lo + i + 1, lo + nblocks, uio.write, r);
        return;
      }
      i := i + 1;
    }
    ExplainedDone(vol.Now(sv), uio.offset);
    SmoothDone(a, u.offset + u.resid);
  }

  lemma OnlyFileReflexive(a: Snap, ino: nat)
    requires a.inode.Shape() && a.inode.blocks < WORD_LIMIT
    ensures OnlyFile(a, a, ino) && SameBytes(a, a)
  {
  }

  function Min(x: nat, y: nat): nat { if x <= y then x else y }

  function Max(x: nat, y: nat): nat { if x >= y then x else y }

  /**
   * What sfs_io does to file `ino` and to the uio. A write replaces exactly the bytes it transferred and makes
   * the file end no earlier than the offset it reached. A read delivers bytes of the file up to its end and
   * changes none.
   */
  ghost predicate IoEffect(a: Snap, b: Snap, ino: nat, u: UioState, v: UioState, write: bool) {
    && a.inode.Shape() && b.inode.Shape()
    && OnlyFile(a, b, ino) && Tidy(a, b, u.offset + u.resid, write)
    && u.offset <= v.offset && v.offset + v.resid == u.offset + u.resid
    && v.base + v.len == u.base + u.len && v.offset - u.offset == v.base - u.base
    && Transferred(a, b, u.mem, u.base, u.offset, write, v.mem, v.offset - u.offset)
    && b.inode.size == (if write then Max(a.inode.size, v.offset) else a.inode.size)
    && (!write ==> v.offset <= Max(u.offset, a.inode.size))
  }

  /** How much a successful transfer moves. */
  function Extent(a: Snap, u: UioState, write: bool): nat {
    if write then u.resid
    else if u.offset >= a.inode.size then 0
    else Min(u.resid, a.inode.size - u.offset)
  }

  lemma IoFromMoved(a: Snap, b: Snap, c: Snap, ino: nat, u: UioState, clipped: UioState, moved: UioState, v: UioState,
                    write: bool)
    requires b.Ok(ino) && Moved(a, b, ino, clipped, moved, write)
    requires c == b.(inode := b.inode.(size := if write then Max(b.inode.size, moved.offset) else b.inode.size),
                     dirty := c.dirty)
    requires c.dirty == (b.dirty || c.inode.size != b.inode.size)
    requires clipped == u.(resid := clipped.resid) && clipped.resid <= u.resid
    requires v == moved.(resid := moved.resid + u.resid - clipped.resid)
    requires write ==> clipped == u
    requires !write ==> u.offset + clipped.resid <= a.inode.size
    ensures c.Ok(ino) && IoEffect(a, c, ino, u, v, write)
  {
    hide OnlyFile, Transferred, Tidy, TreeOk;
    SizeOnly(a, b, c, ino, u.mem, u.base, u.offset, write, moved.mem, moved.offset - u.offset);
    TidyEnd(a, b, clipped.offset + clipped.resid, u.offset + u.resid, write);
    if write {
      TidySize(a, b, c, u.offset + u.resid);
    }
  }

  lemma NoIo(a: Snap, ino: nat, u: UioState)
    requires a.inode.Shape() && a.inode.blocks < WORD_LIMIT && u.base <= |u.mem|
    ensures IoEffect(a, a, ino, u, u, false)
  {
    OnlyFileReflexive(a, ino);
    NothingMoved(a, a, u.mem, u.base, u.offset, false);
  }

  /** sfs_io; the effect is the same shape on every outcome, even when it failed or transferred nothing. */
  method Io(vol: Volume, sv: SfsVnode, uio: Uio) returns (r: IoResult)
    requires vol.Valid() && vol.Now(sv).Ok(sv.ino) && sv.inode.blocks < WORD_LIMIT && uio.Valid()
    requires uio.offset + uio.resid < OFF_LIMIT
    modifies vol, vol.freemap.v, sv, uio
    ensures vol.Valid() && vol.Now(sv).Ok(sv.ino) && sv.inode.blocks < WORD_LIMIT && uio.Valid()
    ensures IoEffect(old(vol.Now(sv)), vol.Now(sv), sv.ino, old(uio.Now()), uio.Now(), uio.write)
    ensures r.Done? ==> uio.offset == old(uio.offset) + Extent(old(vol.Now(sv)), old(uio.Now()), uio.write)
    ensures Explained(vol.Now(sv), uio.offset, r)
    ensures uio.write ==> Covers(old(vol.Now(sv)), vol.Now(sv), old(uio.offset) / BLOCKSIZE,
                                 BlockLen(old(uio.offset + uio.resid)), true, r)
    ensures Smooth(old(vol.Now(sv)), old(uio.offset + uio.resid), r)
    ensures Stops(old(uio.offset), uio.offset, uio.resid, r)
    ensures sv.refcount == old(sv.refcount)
  {
    hide TreeOk, Moved, IoEffect, Explained, Volume.Valid, Covers, BlockLen, Smooth, Ptr;
    ghost var a, u := vol.Now(sv), uio.Now();
    ExplainedDone(a, uio.offset);
    var extraresid := 0;
    if !uio.write {
      var size := sv.inode.size;
      var endpos := uio.offset + uio.resid;
      if uio.offset >= size {
        NoIo(a, sv.ino, u);
        SmoothDone(a, u.offset + u.resid);
        return Done;
      }
      if endpos > size {
        extraresid := endpos - size;
        uio.resid := uio.resid - extraresid;
      }
    }
    ghost var clipped := uio.Now();
    r := TransferAll(vol, sv, uio);
    ghost var b, moved := vol.Now(sv), uio.Now();
    MovedFrame(a, b, sv.ino, clipped, moved, uio.write);
    if uio.write && uio.offset > sv.inode.size {
      sv.inode := sv.inode.(size := uio.offset);
      sv.dirty := true;
      ExplainedSame(b, vol.Now(sv), uio.offset, r);
    }
    if uio.write {
      CoversSize(a, b, vol.Now(sv), u.offset / BLOCKSIZE, BlockLen(u.offset + u.resid), true, r);
    }
    uio.resid := uio.resid + extraresid;
    SmoothEnd(a, clipped.offset + clipped.resid, u.offset + u.resid, r);
    IoFromMoved(a, b, vol.Now(sv), sv.ino, u, clipped, moved, uio.Now(), uio.write);
  }

  /** Changing the size field of an inode changes none of its pointers and no byte. */
  lemma SizeOnly(a: Snap, b: Snap, c: Snap, ino: nat, mem: seq<byte>, base: nat, off: nat, write: bool,
                 mem': seq<byte>, moved: nat)
    requires a.inode.Shape() && b.Ok(ino) && OnlyFile(a, b, ino)
    requires Transferred(a, b, mem, base, off, write, mem', moved)
    requires c == b.(inode := b.inode.(size := c.inode.size), dirty := c.dirty)
    requires c.dirty == (b.dirty || c.inode.size != b.inode.size)
    ensures c.Ok(ino) && OnlyFile(a, c, ino) && Transferred(a, c, mem, base, off, write, mem', moved)
    ensures SameBytes(b, c)
  {
    hide Transferred;
    SizeKeepsBytes(b, c, ino);
    SameBytesTransferred(a, b, c, mem, base, off, write, mem', moved);
  }

  lemma SizeKeepsBytes(b: Snap, c: Snap, ino: nat)
    requires b.Ok(ino) && c == b.(inode := b.inode.(size := c.inode.size), dirty := c.dirty)
    ensures c.Ok(ino) && SameBytes(b, c)
  {
    SameTree(ImageOf(b.disk), b.owner, ino, b.inode, c.inode);
    forall i: nat
      ensures ByteAt(c, i) == ByteAt(b, i)
    {
    }
  }

  lemma SameBytesTransferred(a: Snap, b: Snap, c: Snap, mem: seq<byte>, base: nat, off: nat, write: bool,
                             mem': seq<byte>, moved: nat)
    requires a.inode.Shape() && b.inode.Shape() && c.inode.Shape() && SameBytes(b, c)
    requires Transferred(a, b, mem, base, off, write, mem', moved)
    ensures Transferred(a, c, mem, base, off, write, mem', moved)
  {
    hide ByteAt;
  }

  /** A read is tidy whatever its end. */
  lemma TidyEnd(a: Snap, b: Snap, end: nat, end': nat, write: bool)
    requires Tidy(a, b, end, write) && (if write then end == end' else end <= end')
    ensures Tidy(a, b, end', write)
  {
    hide BlockOf;
  }

  lemma SmoothEnd(a: Snap, end: nat, end': nat, r: IoResult)
    requires Smooth(a, end, r) && end <= end'
    ensures Smooth(a, end', r)
  {
    hide BlockOf;
  }

  lemma TidySize(a: Snap, b: Snap, c: Snap, end: nat)
    requires Tidy(a, b, end, true) && c == b.(inode := b.inode.(size := c.inode.size), dirty := c.dirty)
    requires b.inode.Shape()
    ensures Tidy(a, c, end, true)
  {
    hide Dense;
    if Dense(a, end) {
      forall s | ValidSlot(s)
        ensures c.At(s) == b.At(s)
      {
        SamePtr(ImageOf(b.disk), b.inode, c.inode, s);
      }
    }
  }

  lemma ExplainedSame(b: Snap, c: Snap, off: nat, r: IoResult)
    requires Explained(b, off, r) && c.disk == b.disk && c.owner == b.owner
    ensures Explained(c, off, r)
  {
  }

  // ----- the file as one sequence of bytes

  /** What a write of `data` at `off` makes of a file: a gap before it is filled with zeros. */
  function WriteAt(file: seq<byte>, off: nat, data: seq<byte>): (f: seq<byte>) {
    var padded := if off <= |file| then file else file + ZeroBytes(off - |file|);
    padded[..off] + data + if off + |data| < |file| then file[off + |data|..] else []
  }

  /** When nothing but zeros is stored behind the end, a write does exactly that, and keeps it so. */
  lemma WriteContents(a: Snap, b: Snap, off: nat, data: seq<byte>)
    requires a.inode.Shape() && b.inode.Shape() && TailZero(a)
    requires Wrote(a, b, off, data) && b.inode.size == Max(a.inode.size, off + |data|)
    ensures Contents(b) == WriteAt(Contents(a), off, data) && TailZero(b)
  {
    var f, g := Contents(b), WriteAt(Contents(a), off, data);
    assert |f| == |g|;
    forall i: nat | i < |f|
      ensures f[i] == g[i]
    {
      assert f[i] == ByteAt(b, i);
      if i < a.inode.size {
        assert Contents(a)[i] == ByteAt(a, i);
      }
    }
  }

  /** A read delivers the slice of the contents that it covers, clipped at the end of the file. */
  lemma ReadContents(a: Snap, off: nat, n: nat)
    requires a.inode.Shape() && (n == 0 || off + n <= a.inode.size)
    ensures BytesFrom(a, off, n) == if n == 0 then [] else Contents(a)[off..off + n]
  {
  }
}
