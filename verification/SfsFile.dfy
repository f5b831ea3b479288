/** Files as byte sequences: what any run of reads, writes and truncations of any files means. */
module SfsFile {
  import opened SfsLayout
  import opened SfsTree
  import opened SfsMap
  import opened SfsVolume
  import opened SfsSpace
  import opened SfsIo
  import opened SfsTruncate
  import opened UioModel
  import opened Errno

  // ----- one operation on one file

  /** A completed call, whatever its outcome: a transfer that failed has moved some first part of its bytes. */
  datatype FileOp =
    | Read(off: nat, want: nat, got: seq<byte>, done: bool)
    | Write(off: nat, data: seq<byte>, sent: nat, done: bool)
    | Truncate(len: nat)

  predicate WellFormedOp(op: FileOp) {
    match op
    case Read(_, want, got, _) => |got| <= want
    case Write(_, data, sent, done) => sent <= |data| && (done ==> sent == |data|)
    case Truncate(_) => true
  }

  /** The call `op` took file `ino` from `a` to `b`. */
  ghost predicate FileStep(a: Snap, b: Snap, ino: nat, op: FileOp) {
    && WellFormedOp(op) && a.Ok(ino) && b.Ok(ino)
    && match op
       case Read(off, want, got, done) =>
         && OnlyFile(a, b, ino) && SameBytes(a, b) && b.inode.size == a.inode.size
         && got == BytesFrom(a, off, |got|) && (got != [] ==> off + |got| <= a.inode.size)
         && (done ==> |got| == if off >= a.inode.size then 0 else Min(want, a.inode.size - off))
       case Write(off, data, sent, _) =>
         && OnlyFile(a, b, ino) && Wrote(a, b, off, data[..sent])
         && b.inode.size == Max(a.inode.size, off + sent)
       case Truncate(len) => Truncated(a, b, ino, len)
  }

  lemma ReadStep(a: Snap, b: Snap, ino: nat, u: UioState, v: UioState, done: bool)
    requires a.Ok(ino) && b.Ok(ino) && IoEffect(a, b, ino, u, v, false)
    requires done ==> v.offset == u.offset + Extent(a, u, false)
    ensures u.base <= v.base <= |v.mem| && |v.mem| == |u.mem|
    ensures v.mem == Splice(u.mem, u.base, v.mem[u.base..v.base])
    ensures FileStep(a, b, ino, Read(u.offset, u.resid, v.mem[u.base..v.base], done))
  {
    hide TreeOk, OnlyFile;
    var got := BytesFrom(a, u.offset, v.offset - u.offset);
    assert v.mem[u.base..v.base] == got;
  }

  /** A read that succeeds inside the file delivers all of its range. */
  lemma ReadInside(a: Snap, b: Snap, ino: nat, off: nat, want: nat, got: seq<byte>)
    requires FileStep(a, b, ino, Read(off, want, got, true)) && off + want <= a.inode.size
    ensures a.inode.Shape() && |got| == want && (want > 0 ==> got == Contents(a)[off..off + want])
  {
    hide TreeOk, OnlyFile, SameBytes;
  }

  lemma Front(mem: seq<byte>, base: nat, n: nat, k: nat)
    requires k <= n && base + n <= |mem|
    ensures mem[base..base + n][..k] == mem[base..base + k]
  {
  }

  lemma WriteStep(a: Snap, b: Snap, ino: nat, u: UioState, v: UioState, done: bool)
    requires a.Ok(ino) && b.Ok(ino) && IoEffect(a, b, ino, u, v, true) && u.base + u.resid <= |u.mem|
    requires done ==> v.offset == u.offset + u.resid
    ensures FileStep(a, b, ino, Write(u.offset, u.mem[u.base..u.base + u.resid], v.offset - u.offset, done))
  {
    hide TreeOk, OnlyFile, Wrote, Tidy;
    Front(u.mem, u.base, u.resid, v.offset - u.offset);
  }

  /** sfs_read. */
  method SfsRead(vol: Volume, sv: SfsVnode, uio: Uio) returns (r: IoResult)
    requires vol.Valid() && vol.Now(sv).Ok(sv.ino) && sv.inode.blocks < WORD_LIMIT && uio.Valid() && !uio.write
    requires uio.offset + uio.resid < OFF_LIMIT
    modifies vol, vol.freemap.v, sv, uio
    ensures vol.Valid() && sv.inode.blocks < WORD_LIMIT && uio.Valid()
    ensures uio.offset + uio.resid == old(uio.offset + uio.resid)
    ensures old(uio.base) <= uio.base && uio.offset - uio.base == old(uio.offset - uio.base)
    ensures |uio.mem| == |old(uio.mem)|
    ensures uio.mem == Splice(old(uio.mem), old(uio.base), uio.mem[old(uio.base)..uio.base])
    ensures FileStep(old(vol.Now(sv)), vol.Now(sv), sv.ino,
                     Read(old(uio.offset), old(uio.resid), uio.mem[old(uio.base)..uio.base], r.Done?))
    ensures Tidy(old(vol.Now(sv)), vol.Now(sv), old(uio.offset + uio.resid), false)
    ensures Explained(vol.Now(sv), uio.offset, r)
    ensures Smooth(old(vol.Now(sv)), old(uio.offset + uio.resid), r)
    ensures Stops(old(uio.offset), uio.offset, uio.resid, r)
    ensures sv.refcount == old(sv.refcount)
  {
    hide TreeOk, FileStep, Volume.Valid, Explained, OnlyFile, Transferred, Tidy, Smooth;
    ghost var a, u := vol.Now(sv), uio.Now();
    r := Io(vol, sv, uio);
    ReadStep(a, vol.Now(sv), sv.ino, u, uio.Now(), r.Done?);
  }

  /** The pointers on the ways to the blocks of the range from `off` to `end`. */
  function Ways(off: nat, end: nat): set<Slot> {
    WaysTo(off / BLOCKSIZE, BlockLen(end))
  }

  /** Within the reach of the index arithmetic a write can only fail for lack of space, and it does so exactly then. */
  lemma WriteSpace(a: Snap, b: Snap, ino: nat, op: FileOp, off': nat, end: nat, r: IoResult)
    requires FileStep(a, b, ino, op) && op.Write? && Tidy(a, b, end, true) && Explained(b, off', r)
    requires Covers(a, b, op.off / BLOCKSIZE, BlockLen(end), true, r)
    requires (forall x | x in b.owner :: x < |b.disk|) && off' <= end <= FAULTBLOCK * BLOCKSIZE
    requires !r.Done? ==> off' < FAULTBLOCK * BLOCKSIZE
    ensures r.Done? || r == IoFailed(ENOSPC)
    ensures r == IoFailed(ENOSPC) <==> |a.disk| < |a.owner| + |Missing(a, Ways(op.off, end))|
  {
    hide TreeOk, Ptr, WaysTo, Missing, Fills, Wrote, KeepsInode, Dense;
    assert BlockLen(end) <= FAULTBLOCK;
    SpaceNeeded(a, b, ino, Ways(op.off, end), r.Done?, r == IoFailed(ENOSPC));
  }

  /**
   * All that there is to say of a write, from `a` and `u` to `b` and `v`: within the reach of the index arithmetic it
   * fails exactly when there are fewer free blocks than pointers to fill in on the ways to its range.
   */
  ghost predicate WriteOutcome(a: Snap, b: Snap, ino: nat, u: UioState, v: UioState, r: IoResult) {
    && u.base + u.resid <= |u.mem| && u.offset <= v.offset && v.offset + v.resid == u.offset + u.resid
    && FileStep(a, b, ino, Write(u.offset, u.mem[u.base..u.base + u.resid], v.offset - u.offset, r.Done?))
    && Tidy(a, b, u.offset + u.resid, true) && Explained(b, v.offset, r) && Smooth(a, u.offset + u.resid, r)
    && Stops(u.offset, v.offset, v.resid, r)
    && Covers(a, b, u.offset / BLOCKSIZE, BlockLen(u.offset + u.resid), true, r)
    && (u.offset < FAULTBLOCK * BLOCKSIZE && u.offset + u.resid <= FAULTBLOCK * BLOCKSIZE ==>
          && (r.Done? || r == IoFailed(ENOSPC)) && a.inode.Shape()
          && (r == IoFailed(ENOSPC) <==> |a.disk| < |a.owner| + |Missing(a, Ways(u.offset, u.offset + u.resid))|))
  }

  /** sfs_write. */
  method SfsWrite(vol: Volume, sv: SfsVnode, uio: Uio) returns (r: IoResult)
    requires vol.Valid() && vol.Now(sv).Ok(sv.ino) && sv.inode.blocks < WORD_LIMIT && uio.Valid() && uio.write
    requires uio.offset + uio.resid < OFF_LIMIT
    modifies vol, vol.freemap.v, sv, uio
    ensures vol.Valid() && sv.inode.blocks < WORD_LIMIT && uio.Valid()
    ensures old(uio.offset) <= uio.offset && uio.offset + uio.resid == old(uio.offset + uio.resid)
    ensures FileStep(old(vol.Now(sv)), vol.Now(sv), sv.ino,
                     Write(old(uio.offset), old(uio.Next(uio.resid)), uio.offset - old(uio.offset), r.Done?))
    ensures Tidy(old(vol.Now(sv)), vol.Now(sv), old(uio.offset + uio.resid), true)
    ensures Explained(vol.Now(sv), uio.offset, r)
    ensures Smooth(old(vol.Now(sv)), old(uio.offset + uio.resid), r)
    ensures Stops(old(uio.offset), uio.offset, uio.resid, r)
    ensures WriteOutcome(old(vol.Now(sv)), vol.Now(sv), sv.ino, old(uio.Now()), uio.Now(), r)
    ensures sv.refcount == old(sv.refcount)
  {
    hide TreeOk, FileStep, Volume.Valid, Explained, OnlyFile, Transferred, Tidy, Smooth, Covers, BlockLen, Ways,
      Missing;
    ghost var a, u := vol.Now(sv), uio.Now();
    r := Io(vol, sv, uio);
    WriteStep(a, vol.Now(sv), sv.ino, u, uio.Now(), r.Done?);
    vol.AllInVolume();
    if u.offset < FAULTBLOCK * BLOCKSIZE && u.offset + u.resid <= FAULTBLOCK * BLOCKSIZE {
      WriteSpace(a, vol.Now(sv), sv.ino,
                 Write(u.offset, u.mem[u.base..u.base + u.resid], uio.offset - u.offset, r.Done?),
                 uio.offset, u.offset + u.resid, r);
    }
  }

  // ----- the bytes that truncation leaves

  /** Byte `i` lies in a block whose pointer truncation to `len` keeps. */
  predicate KeptByte(a: Snap, len: nat, i: nat)
    requires |a.disk| > 0
  {
    var p := PlaceOf(i / BLOCKSIZE);
    p.At? && Keeps(a, BlockLen(len), p.slot)
  }

  /** Truncation keeps the bytes of the blocks it keeps, and clears the others. */
  lemma TruncatedBytes(a: Snap, b: Snap, ino: nat, len: nat)
    requires a.Ok(ino) && b.Ok(ino) && Truncated(a, b, ino, len)
    ensures forall i: nat :: ByteAt(b, i) == if KeptByte(a, len, i) then ByteAt(a, i) else 0
  {
    forall i: nat
      ensures ByteAt(b, i) == if KeptByte(a, len, i) then ByteAt(a, i) else 0
    {
      var p := PlaceOf(i / BLOCKSIZE);
      if p.At? && a.At(p.slot) != 0 {
        SlotInVolume(a, ino, p.slot);
      }
    }
  }

  lemma BlockBelow(i: nat, len: nat)
    requires i < len
    ensures i / BLOCKSIZE < BlockLen(len)
  {
  }

  lemma KeptEntry(ws: seq<nat>, blocklen: nat, j: nat)
    requires |ws| == DBPERIDB && j < DBPERIDB && KeepsEntry(blocklen, j)
    ensures HasKept(ws, blocklen) || ws[j] == 0
  {
  }

  lemma KeptBlock(a: Snap, ino: nat, blocklen: nat, fb: nat)
    requires a.Ok(ino) && |a.disk| > 0 && fb < blocklen && PlaceOf(fb).At?
    ensures Keeps(a, blocklen, PlaceOf(fb).slot) || a.At(PlaceOf(fb).slot) == 0
  {
    hide TreeOk, Ptr, HasKept, Words, IndirectWords;
    var s := PlaceOf(fb).slot;
    if s.root.Indirect? && Cuts(a.inode, blocklen) {
      TreeFreeable(a, ino);
      assert s == Slot(Indirect, [fb - NDIRECT]);
      assert a.At(s) == IndirectWords(a)[fb - NDIRECT];
      assert KeepsEntry(blocklen, fb - NDIRECT);
      KeptEntry(IndirectWords(a), blocklen, fb - NDIRECT);
    }
  }

  /** No byte below the new length is lost. */
  lemma KeptPrefix(a: Snap, ino: nat, len: nat, i: nat)
    requires a.Ok(ino) && |a.disk| > 0 && i < len
    ensures KeptByte(a, len, i) || ByteAt(a, i) == 0
  {
    hide TreeOk, Ptr, Keeps, IndexesOf, BlockLen;
    BlockBelow(i, len);
    if PlaceOf(i / BLOCKSIZE).At? {
      KeptBlock(a, ino, BlockLen(len), i / BLOCKSIZE);
    }
  }

  /** What truncation to `len` makes of a sequence of bytes; a longer file is filled up with zeros. */
  function CutTo(file: seq<byte>, len: nat): (f: seq<byte>)
    ensures |f| == len
  {
    if len <= |file| then file[..len] else file + ZeroBytes(len - |file|)
  }

  /** Seen through its size, a truncated file is what it should be. */
  lemma TruncateContents(a: Snap, b: Snap, ino: nat, len: nat)
    requires a.Ok(ino) && b.Ok(ino) && Truncated(a, b, ino, len) && TailZero(a)
    ensures Contents(b) == CutTo(Contents(a), len)
  {
    TruncatedBytes(a, b, ino, len);
    forall i: nat | i < len
      ensures Contents(b)[i] == CutTo(Contents(a), len)[i]
    {
      KeptPrefix(a, ino, len, i);
      assert Contents(b)[i] == ByteAt(b, i) == ByteAt(a, i);
    }
  }

  /** Nothing of the file survives behind its new end. */
  ghost predicate CleanCut(a: Snap, len: nat)
    requires a.inode.Shape() && |a.disk| > 0
  {
    forall i: nat | len <= i && KeptByte(a, len, i) :: ByteAt(a, i) == 0
  }

  /** Truncation leaves zeros behind the end exactly when it keeps no other byte there. */
  lemma TruncateTail(a: Snap, b: Snap, ino: nat, len: nat)
    requires a.Ok(ino) && b.Ok(ino) && Truncated(a, b, ino, len)
    ensures |a.disk| > 0
    ensures TailZero(b) <==> CleanCut(a, len)
  {
    TruncatedBytes(a, b, ino, len);
    if TailZero(b) {
      forall i: nat | len <= i && KeptByte(a, len, i)
        ensures ByteAt(a, i) == 0
      {
        assert ByteAt(b, i) == ByteAt(a, i);
      }
    }
  }

  /** Where the direct and single-indirect blocks that truncation keeps end. */
  function KeptEnd(len: nat, size: nat): nat {
    var n := BlockLen(len);
    if n < NDIRECT then n * BLOCKSIZE
    else if n < HIGHBLOCK then (n + 1) * BLOCKSIZE
    else Max(size, len)
  }

  /**
   * Truncation to `n` blocks keeps all the deeper blocks, or none: it looks for an entry of the indirect block
   * to keep.
   */
  ghost predicate DeepKept(a: Snap, n: nat)
    requires a.inode.Shape()
  {
    n < HIGHBLOCK && a.inode.indirect != 0 ==>
      exists fb: nat :: NDIRECT <= fb <= n && BlockOf(ImageOf(a.disk), a.inode, fb) != 0
  }

  /** Truncation to `len` does not reach byte `i`. */
  ghost predicate Survives(a: Snap, len: nat, i: nat)
    requires a.inode.Shape()
  {
    if i < SHALLOW_LIMIT then i < KeptEnd(len, a.inode.size) else DeepKept(a, BlockLen(len))
  }

  /** In terms of lengths and of which blocks there are: the bytes that must be zero for a truncation to be clean. */
  lemma ReadableCleanCut(a: Snap, ino: nat, len: nat)
    requires a.Ok(ino) && |a.disk| > 0 && TailZero(a)
    ensures CleanCut(a, len) <==> forall i: nat | len <= i < a.inode.size && Survives(a, len, i) :: ByteAt(a, i) == 0
  {
    hide KeptByte, Survives;
    forall i: nat | len <= i < a.inode.size && ByteAt(a, i) != 0
      ensures KeptByte(a, len, i) <==> Survives(a, len, i)
    {
      ByteSurvives(a, ino, len, i);
    }
  }

  lemma ByteSurvives(a: Snap, ino: nat, len: nat, i: nat)
    requires a.Ok(ino) && |a.disk| > 0 && ByteAt(a, i) != 0 && len <= i < a.inode.size
    ensures KeptByte(a, len, i) <==> Survives(a, len, i)
  {
    hide TreeOk, Keeps, IndexesOf, BlockLen, Ptr, DeepKept;
    var n, fb := BlockLen(len), i / BLOCKSIZE;
    BlockSurvives(a, ino, n, fb);
    assert i < n * BLOCKSIZE <==> fb < n;
    assert i < (n + 1) * BLOCKSIZE <==> fb <= n;
    assert i < SHALLOW_LIMIT <==> fb < NDIRECT + DBPERIDB;
  }

  lemma BlockSurvives(a: Snap, ino: nat, n: nat, fb: nat)
    requires a.Ok(ino) && |a.disk| > 0 && PlaceOf(fb).At? && a.At(PlaceOf(fb).slot) != 0
    ensures Keeps(a, n, PlaceOf(fb).slot) <==>
            if fb >= NDIRECT + DBPERIDB then DeepKept(a, n)
            else if n < NDIRECT then fb < n else if n < HIGHBLOCK then fb <= n else true
  {
    hide TreeOk, Ptr, DeepKept, HasKept;
    var s := PlaceOf(fb).slot;
    RootOf(a, s.root);
    if a.At(Slot(s.root, [])) == 0 {
      EmptyRoot(a, s);
    }
    if Cuts(a.inode, n) && !s.root.Direct? {
      DeepIsKept(a, ino, n);
      if s.root.Indirect? {
        EntryIs(a, ino, fb - NDIRECT);
        if fb <= n {
          KeptEntry(IndirectWords(a), n, fb - NDIRECT);
        }
      }
    } else if !s.root.Direct? {
      NotCut(a, n);
    }
  }

  lemma NotCut(a: Snap, n: nat)
    requires a.inode.Shape() && !Cuts(a.inode, n)
    ensures DeepKept(a, n)
  {
  }

  lemma EntryIs(a: Snap, ino: nat, j: nat)
    requires a.Ok(ino) && |a.disk| > 0 && a.inode.indirect != 0 && j < DBPERIDB
    ensures PlaceOf(NDIRECT + j) == At(Slot(Indirect, [j])) && a.At(Slot(Indirect, [j])) == IndirectWords(a)[j]
  {
    hide TreeOk, Ptr, Words;
    TreeFreeable(a, ino);
  }

  lemma DeepIsKept(a: Snap, ino: nat, n: nat)
    requires a.Ok(ino) && |a.disk| > 0 && Cuts(a.inode, n)
    ensures DeepKept(a, n) <==> HasKept(IndirectWords(a), n)
  {
    hide TreeOk, Ptr, IndirectWords, IndexesOf;
    if HasKept(IndirectWords(a), n) {
      var j: nat :| j < DBPERIDB && KeepsEntry(n, j) && IndirectWords(a)[j] != 0;
      EntryIs(a, ino, j);
      assert BlockOf(ImageOf(a.disk), a.inode, NDIRECT + j) != 0;
    }
    if DeepKept(a, n) {
      var fb: nat :| NDIRECT <= fb <= n && BlockOf(ImageOf(a.disk), a.inode, fb) != 0;
      EntryIs(a, ino, fb - NDIRECT);
      assert KeepsEntry(n, fb - NDIRECT);
    }
  }

  /**
   * For a file without deeper roots the bytes to look at are those from the new length to the end of its block
   * and, from the indirect range on, those of one more block.
   */
  lemma ShallowCleanCut(a: Snap, ino: nat, len: nat)
    requires a.Ok(ino) && |a.disk| > 0 && TailZero(a) && Shallow(a.inode)
    ensures CleanCut(a, len) <==>
            forall i: nat | len <= i < a.inode.size && i < KeptEnd(len, a.inode.size) :: ByteAt(a, i) == 0
  {
    ReadableCleanCut(a, ino, len);
    forall i: nat | SHALLOW_LIMIT <= i
      ensures ByteAt(a, i) == 0
    {
      ShallowByte(a, i);
    }
  }

  lemma ShallowByte(a: Snap, i: nat)
    requires a.inode.Shape() && Shallow(a.inode) && SHALLOW_LIMIT <= i
    ensures ByteAt(a, i) == 0
  {
    var p := PlaceOf(i / BLOCKSIZE);
    if p.At? {
      RootOf(a, p.slot.root);
      EmptyRoot(a, p.slot);
    }
  }

  /** A file cut to nothing has no pointers left exactly when it had an indirect block or no deeper one. */
  lemma TruncateToNothing(a: Snap, b: Snap, ino: nat)
    requires a.Ok(ino) && b.Ok(ino) && Truncated(a, b, ino, 0)
    ensures (forall s | ValidSlot(s) :: b.At(s) == 0) <==> (a.inode.indirect != 0 || Shallow(a.inode))
  {
    RootOf(a, Double);
    RootOf(a, Triple);
    if a.inode.indirect != 0 || Shallow(a.inode) {
      forall s | ValidSlot(s)
        ensures b.At(s) == 0
      {
        RootOf(a, s.root);
        if a.At(Slot(s.root, [])) == 0 {
          EmptyRoot(a, s);
        }
      }
    }
  }
}
