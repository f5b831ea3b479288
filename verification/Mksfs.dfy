/** mksfs: the volume that it writes, and what mounting that volume gives. */
module Mksfs {
  import opened SfsLayout
  import opened SfsTree
  import opened SfsMap
  import opened SfsVolume
  import opened SfsIo
  import opened SfsDirent
  import opened SfsState
  import opened SfsFileSystem
  import opened SfsMount
  import opened Bitmap

  const MAXBITBLOCKS: nat := 32
  const VOLNAME_SIZE: nat := 32
  const BLOCKBITS: nat := BLOCKSIZE * BITS_PER_WORD

  datatype MkResult = Made | NameTooLong | TooLarge | DeviceError | AssertFailed

  /** SFS_BITMAPSIZE in 32 bits: the addition before the rounding can wrap around. */
  function BitmapSize(n: nat): nat {
    Wrap(n + BLOCKBITS - 1) / BLOCKBITS * BLOCKBITS
  }

  /** Except for the very largest volumes this is the size of the freemap. */
  lemma BitmapSizes(n: nat)
    requires n + BLOCKBITS - 1 < WORD_LIMIT
    ensures BitmapSize(n) == BitBlocks(n) * BLOCKBITS && n <= BitmapSize(n) < n + BLOCKBITS
  {
  }

  /** The largest volumes get no freemap at all. */
  lemma BitmapSizeWraps(n: nat)
    requires n < WORD_LIMIT <= n + BLOCKBITS - 1
    ensures BitmapSize(n) == 0
  {
  }

  // ----- the freemap

  /** The bits that are set in the buffer. */
  ghost function Bits(v: seq<bv8>): (s: set<nat>) {
    MarkedBits(v, |v| * BITS_PER_WORD)
  }

  /** doallocbit; `ok` is false where its assertion fails. */
  method DoAllocBit(bitbuf: array<bv8>, bit: nat) returns (ok: bool)
    requires bit < bitbuf.Length * BITS_PER_WORD
    modifies bitbuf
    ensures ok <==> bit !in old(Bits(bitbuf[..]))
    ensures Bits(bitbuf[..]) == old(Bits(bitbuf[..])) + if ok then {bit} else {}
    ensures !ok ==> bitbuf[..] == old(bitbuf[..])
  {
    ghost var before := bitbuf[..];
    var byte, mask := bit / BITS_PER_WORD, Bit(bit % BITS_PER_WORD);
    if bitbuf[byte] & mask != 0 {
      return false;
    }
    bitbuf[byte] := bitbuf[byte] | mask;
    MarkedAfterSet(before, bitbuf[..], bit, |before| * BITS_PER_WORD);
    ok := true;
  }

  /** Marks the bits from `lo` on and below `hi`. */
  method DoAllocBits(bitbuf: array<bv8>, lo: nat, hi: nat) returns (ok: bool)
    requires hi <= bitbuf.Length * BITS_PER_WORD
    modifies bitbuf
    ensures ok <==> forall b: nat | lo <= b < hi :: b !in old(Bits(bitbuf[..]))
    ensures ok ==> Bits(bitbuf[..]) == old(Bits(bitbuf[..])) + Range(lo, hi)
  {
    hide Bits;
    var i := lo;
    while i < hi
      invariant lo <= i && (if lo <= hi then i <= hi else i == lo)
      invariant forall b: nat | lo <= b < i :: b !in old(Bits(bitbuf[..]))
      invariant Bits(bitbuf[..]) == old(Bits(bitbuf[..])) + Range(lo, i)
    {
      var fine := DoAllocBit(bitbuf, i);
      if !fine {
        return false;
      }
      i := i + 1;
    }
    assert forall b: nat :: b in Range(lo, i) <==> b in Range(lo, hi);
    ok := true;
  }

  /** The numbers from `lo` on and below `hi`. */
  function Range(lo: nat, hi: nat): (s: set<nat>)
    ensures forall b: nat :: b in s <==> lo <= b < hi
  {
    if hi <= lo then {} else Range(lo, hi - 1) + {hi - 1}
  }

  /** The first blocks of a volume: the superblock, the root directory, and `nblocks` blocks of freemap. */
  function Reserved(nblocks: nat): (s: set<nat>) {
    Range(0, MAP_LOCATION + nblocks)
  }

  /** writebitmap, up to writing the buffer out. */
  method MarkBits(bitbuf: array<bv8>, fsblocks: nat) returns (r: MkResult)
    requires bitbuf.Length == MAXBITBLOCKS * BLOCKSIZE && Bits(bitbuf[..]) == {} && fsblocks < WORD_LIMIT
    modifies bitbuf
    ensures r == TooLarge <==> BitmapSize(fsblocks) / BLOCKBITS > MAXBITBLOCKS
    ensures r == Made <==> BitmapSize(fsblocks) / BLOCKBITS <= MAXBITBLOCKS
                           && (BitmapSize(fsblocks) <= fsblocks
                               || MAP_LOCATION + BitmapSize(fsblocks) / BLOCKBITS <= fsblocks)
    ensures r in {Made, TooLarge, AssertFailed}
    ensures r == Made ==> Bits(bitbuf[..]) == Reserved(BitmapSize(fsblocks) / BLOCKBITS)
                                              + Range(fsblocks, BitmapSize(fsblocks))
  {
    hide Bits, BitmapSize;
    var nbits := BitmapSize(fsblocks);
    var nblocks := nbits / BLOCKBITS;
    if nblocks > MAXBITBLOCKS {
      return TooLarge;
    }
    assert nbits <= bitbuf.Length * BITS_PER_WORD by { SizeIsRound(fsblocks); }
    var ok := DoAllocBit(bitbuf, SB_LOCATION);
    ok := DoAllocBit(bitbuf, ROOT_LOCATION);
    ok := DoAllocBits(bitbuf, MAP_LOCATION, MAP_LOCATION + nblocks);
    assert Bits(bitbuf[..]) == Reserved(nblocks);
    ok := DoAllocBits(bitbuf, fsblocks, nbits);
    if !ok {
      return AssertFailed;
    }
    r := Made;
    if fsblocks < nbits {
      assert fsblocks !in Reserved(nblocks);
    }
  }

  lemma SizeIsRound(n: nat)
    ensures BitmapSize(n) / BLOCKBITS * BLOCKBITS == BitmapSize(n)
    ensures BitmapSize(n) / BLOCKBITS * BLOCKSIZE * BITS_PER_WORD == BitmapSize(n)
  {
  }

  // ----- the blocks that are written

  /** The superblock of a volume: magic number, number of blocks, name. */
  function SuperBlock(nblocks: nat, volname: seq<byte>): (b: Block)
    requires nblocks < WORD_LIMIT && |volname| < VOLNAME_SIZE
  {
    [ByteOf(SFS_MAGIC, 0), ByteOf(SFS_MAGIC, 1), ByteOf(SFS_MAGIC, 2), ByteOf(SFS_MAGIC, 3),
     ByteOf(nblocks, 0), ByteOf(nblocks, 1), ByteOf(nblocks, 2), ByteOf(nblocks, 3)]
    + volname + seq<byte>(BLOCKSIZE - 8 - |volname|, _ => 0)
  }

  lemma SuperWords(nblocks: nat, volname: seq<byte>)
    requires nblocks < WORD_LIMIT && |volname| < VOLNAME_SIZE
    ensures var ws := Words(SuperBlock(nblocks, volname)); ws[0] == SFS_MAGIC && ws[1] == nblocks
  {
    var b := SuperBlock(nblocks, volname);
    WordOfBytes(SFS_MAGIC);
    WordOfBytes(nblocks);
    assert b[0] == ByteOf(SFS_MAGIC, 0) && b[1] == ByteOf(SFS_MAGIC, 1);
    assert b[2] == ByteOf(SFS_MAGIC, 2) && b[3] == ByteOf(SFS_MAGIC, 3);
    assert b[4] == ByteOf(nblocks, 0) && b[5] == ByteOf(nblocks, 1) && b[6] == ByteOf(nblocks, 2)
        && b[7] == ByteOf(nblocks, 3);
  }

  function RootInode(): (n: Inode)
    ensures n.Fits()
  {
    FreshInode().(typ := TYPE_DIR, linkcount := 1)
  }

  /** What mksfs leaves on a device, but for the name of the volume. */
  ghost predicate Fresh(disk: Disk, bits: seq<bv8>) {
    && 2 < |disk| && |disk| + BLOCKBITS - 1 < WORD_LIMIT
    && Words(disk[SB_LOCATION])[0] == SFS_MAGIC && Words(disk[SB_LOCATION])[1] == |disk|
    && DecodeInode(disk[ROOT_LOCATION]) == RootInode()
    && MAP_LOCATION + BitBlocks(|disk|) <= |disk|
    && |bits| == BitBlocks(|disk|) * BLOCKSIZE && MapOnDisk(disk, bits)
    && (forall b: nat | b < |bits| * BITS_PER_WORD ::
          IsSet(bits, b) <==> b < MAP_LOCATION + BitBlocks(|disk|) || |disk| <= b)
  }

  /** The part of writebitmap that writes the buffer out. */
  method WriteBits(disk: Disk, bitbuf: array<bv8>, nblocks: nat) returns (disk': Disk)
    requires nblocks * BLOCKSIZE <= bitbuf.Length && MAP_LOCATION + nblocks <= |disk|
    ensures MapWritten(disk, disk', bitbuf[..nblocks * BLOCKSIZE], nblocks)
  {
    hide MapWritten, MapSlice;
    ghost var bits := bitbuf[..nblocks * BLOCKSIZE];
    disk' := disk;
    NothingWritten(disk, bits);
    var i := 0;
    while i < nblocks
      invariant i <= nblocks && |disk'| == |disk| && MapWritten(disk, disk', bits, i)
    {
      SliceFits(i, nblocks);
      ghost var before := disk';
      disk' := disk'[MapBlock(i) := MapSlice(bitbuf[..], i)];
      SliceKept(bitbuf[..], bitbuf[..], i, i + 1);
      SameSlice(bitbuf[..], bits, i);
      MapWrittenStep(disk, before, disk', bits, i);
      i := i + 1;
    }
  }

  lemma SameSlice(v: seq<bv8>, w: seq<bv8>, j: nat)
    requires w <= v && (j + 1) * BLOCKSIZE <= |w|
    ensures MapSlice(v, j) == MapSlice(w, j)
  {
  }

  /** mksfs on a device of |device| blocks. */
  method MakeFs(device: Disk, volname: seq<byte>) returns (r: MkResult, disk: Disk, ghost bits: seq<bv8>)
    requires |device| < WORD_LIMIT
    ensures r == NameTooLong <==> |volname| >= VOLNAME_SIZE
    ensures r == DeviceError <==> |volname| < VOLNAME_SIZE && |device| < 2
    ensures |device| + BLOCKBITS - 1 < WORD_LIMIT && |volname| < VOLNAME_SIZE && |device| >= 2 ==>
              (r == Made <==> BitBlocks(|device|) <= MAXBITBLOCKS && MAP_LOCATION + BitBlocks(|device|) <= |device|)
    ensures r == Made && |device| + BLOCKBITS - 1 < WORD_LIMIT ==> |disk| == |device| && Fresh(disk, bits)
  {
    hide Words, DecodeInode, EncodeInode, RootInode, SuperBlock, Bits, MapWritten, BitmapSize, BitBlocks, Fresh,
      Reserved, Range;
    disk, bits := device, [];
    if |volname| >= VOLNAME_SIZE {
      r := NameTooLong;
      return;
    }
    if |disk| < 2 {
      r := DeviceError;
      return;
    }
    disk := disk[SB_LOCATION := SuperBlock(|device|, volname)];
    disk := disk[ROOT_LOCATION := EncodeInode(RootInode())];
    var bitbuf := new bv8[MAXBITBLOCKS * BLOCKSIZE](_ => 0);
    ClearBuffer(bitbuf[..]);
    r := MarkBits(bitbuf, |device|);
    var nblocks := BitmapSize(|device|) / BLOCKBITS;
    Sizes(|device|);
    if r == Made {
      ghost var before := disk;
      disk := WriteBits(disk, bitbuf, nblocks);
      bits := bitbuf[..nblocks * BLOCKSIZE];
      if |device| + BLOCKBITS - 1 < WORD_LIMIT {
        SuperWords(|device|, volname);
        InodeRoundTrip(RootInode());
        IsFresh(before, disk, bitbuf[..], bits, nblocks, BitmapSize(|device|));
      }
    }
  }

  lemma Sizes(n: nat)
    requires n < WORD_LIMIT
    ensures n + BLOCKBITS - 1 < WORD_LIMIT ==>
              BitmapSize(n) / BLOCKBITS == BitBlocks(n) && BitmapSize(n) == BitBlocks(n) * BLOCKBITS
                  && n <= BitmapSize(n)
    ensures n + BLOCKBITS - 1 < WORD_LIMIT && BitmapSize(n) <= n && 2 <= n ==> MAP_LOCATION + BitBlocks(n) <= n
    ensures n + BLOCKBITS - 1 >= WORD_LIMIT ==> BitmapSize(n) / BLOCKBITS == 0
  {
    if n + BLOCKBITS - 1 < WORD_LIMIT {
      BitmapSizes(n);
    } else {
      BitmapSizeWraps(n);
    }
  }

  lemma ClearBuffer(v: seq<bv8>)
    requires forall i: nat | i < |v| :: v[i] == 0
    ensures Bits(v) == {}
  {
  }

  lemma IsFresh(before: Disk, disk: Disk, buf: seq<bv8>, bits: seq<bv8>, nblocks: nat, nbits: nat)
    requires 2 <= |before| && |before| + BLOCKBITS - 1 < WORD_LIMIT
    requires nblocks == BitBlocks(|before|) && nbits == nblocks * BLOCKBITS
    requires Words(before[SB_LOCATION])[0] == SFS_MAGIC && Words(before[SB_LOCATION])[1] == |before|
    requires DecodeInode(before[ROOT_LOCATION]) == RootInode() && MAP_LOCATION + nblocks <= |before|
    requires nblocks * BLOCKSIZE <= |buf| && bits == buf[..nblocks * BLOCKSIZE]
    requires MapWritten(before, disk, bits, nblocks)
    requires Bits(buf) == Reserved(nblocks) + Range(|before|, nbits)
    ensures |disk| == |before| && Fresh(disk, bits)
  {
    hide Words, DecodeInode, MapSlice, RootInode, BitBlocks, Bits, IsSet;
    assert nblocks > 0 by { SomeBitBlock(|before|); }
    forall b: nat | b < |bits| * BITS_PER_WORD
      ensures IsSet(bits, b) <==> b < MAP_LOCATION + nblocks || |disk| <= b
    {
      PrefixBit(buf, bits, b);
    }
    WrittenOnDisk(before, disk, bits, nblocks);
  }

  lemma SomeBitBlock(n: nat)
    requires n > 0
    ensures BitBlocks(n) > 0
  {
  }

  lemma WrittenOnDisk(before: Disk, disk: Disk, bits: seq<bv8>, n: nat)
    requires MapWritten(before, disk, bits, n) && |bits| == n * BLOCKSIZE
    ensures MapOnDisk(disk, bits)
  {
    hide MapSlice;
    forall j: nat | (j + 1) * BLOCKSIZE <= |bits| && MapBlock(j) < |disk|
      ensures disk[MapBlock(j)] == MapSlice(bits, j)
    {
      assert j < n;
    }
  }

  lemma PrefixBit(buf: seq<bv8>, bits: seq<bv8>, b: nat)
    requires bits <= buf && b < |bits| * BITS_PER_WORD
    ensures IsSet(bits, b) <==> b in Bits(buf)
  {
  }

  // ----- the volume is empty and sound

  /** What the marked blocks of a new volume are used for. */
  function FreshOwner(n: nat): (o: Owner)
    ensures o.Keys == Reserved(BitBlocks(n))
  {
    map b | b in Reserved(BitBlocks(n)) ::
      if b == SB_LOCATION then Superblock else if b == ROOT_LOCATION then InodeBlock else FreemapBlock
  }

  ghost function FreshState(disk: Disk, bits: seq<bv8>): Fs {
    Fs(disk, FreshOwner(|disk|), FreeMap(bits, false), map[])
  }

  lemma FreshRoot(disk: Disk, bits: seq<bv8>)
    requires Fresh(disk, bits)
    ensures var fs := FreshState(disk, bits);
            && RolesOk(fs) && InodeOk(fs, ROOT_LOCATION) && fs.InodeOf(ROOT_LOCATION) == RootInode()
            && (forall x: nat :: fs.IsInode(x) <==> x == ROOT_LOCATION)
  {
    hide Words, DecodeInode, MapOnDisk, BitBlocks;
    var fs := FreshState(disk, bits);
    var a := fs.Of(ROOT_LOCATION);
    forall s | ValidSlot(s)
      ensures a.At(s) == 0
    {
      RootOf(a, s.root);
      EmptyRoot(a, s);
    }
  }

  /** A new volume meets all that holds between calls, and it has no name, no file and no reference. */
  lemma FreshFs(disk: Disk, bits: seq<bv8>)
    requires Fresh(disk, bits)
    ensures FsOk(FreshState(disk, bits)) && ViewOf(FreshState(disk, bits)) == View(map[], map[], map[])
    ensures Dir(FreshState(disk, bits)) == []
  {
    hide InodeOk, Words, DecodeInode, MapOnDisk, BitBlocks, RolesOk, FreshOwner;
    var fs := FreshState(disk, bits);
    FreshRoot(disk, bits);
    assert Core(fs);
    FreshDir(fs);
    FreshBoot(disk, bits);
    assert FileView(fs) == map[];
  }

  lemma FreshDir(fs: Fs)
    requires Core(fs) && fs.table == map[] && ROOT_LOCATION < |fs.disk| && fs.InodeOf(ROOT_LOCATION) == RootInode()
    requires forall x: nat :: fs.IsInode(x) <==> x == ROOT_LOCATION
    ensures DirOk(fs) && Dir(fs) == [] && LinkedBut(fs, 0, 0) && KeptOk(fs)
  {
    hide InodeOk, TreeOk;
    InodeOkAt(fs, ROOT_LOCATION);
    assert Contents(fs.Of(ROOT_LOCATION)) == [];
    assert Entries([]) == [];
    forall x: nat | fs.IsInode(x)
      ensures InodeOk(fs, x) && fs.InodeOf(x).linkcount == 1
    {
      InodeOkAt(fs, x);
    }
  }

  lemma FreshBoot(disk: Disk, bits: seq<bv8>)
    requires Fresh(disk, bits)
    ensures BootOk(FreshState(disk, bits))
  {
    hide Words, DecodeInode, MapOnDisk, BitBlocks;
  }

  /** The volume agrees with its freemap, so that sfs_balloc cannot be handed a block beyond it. */
  lemma FreshVolume(vol: Volume, bits: seq<bv8>)
    requires Fresh(vol.disk, bits) && vol.owner == FreshOwner(|vol.disk|) && vol.freemap.v[..] == bits
    requires vol.freemap.nbits == vol.freemap.v.Length * BITS_PER_WORD
    ensures vol.Valid()
  {
    hide Words, DecodeInode, MapOnDisk, IsSet;
    var n := |vol.disk|;
    BitmapSizes(n);
    assert |bits| * BITS_PER_WORD == BitBlocks(n) * BLOCKBITS;
  }

  /** What mksfs wrote can be mounted: an empty file system. */
  method MountNew(disk: Disk, ghost bits: seq<bv8>) returns (fs: SfsFs)
    requires Fresh(disk, bits)
    ensures fresh(fs) && fresh(fs.vol) && fresh(fs.vol.freemap.v) && fs.Valid() && fs.vnodes == []
    ensures fs.View() == View(map[], map[], map[]) && Dir(fs.State()) == []
    ensures fs.vol.disk == disk && fs.vol.owner == FreshOwner(|disk|)
  {
    hide Mirrors, TableOf, SfsFs.Table, FsOkBut, Core, Volume.Valid, Dir, FileView, Words, BitBlocks, MapOnDisk,
      FreshOwner, DecodeInode;
    assert disk[..|disk|] == disk;
    var r, f := DoMount(disk, true, FreshOwner(|disk|));
    fs := f;
    OneFreemap(disk, bits, fs.vol.freemap.v[..]);
    FreshVolume(fs.vol, bits);
    fs.EmptyTable();
    FreshFs(disk, bits);
    FsParts(FreshState(disk, bits), 0, 0);
    assert fs.State() == FreshState(disk, bits);
  }

  lemma OneFreemap(disk: Disk, bits: seq<bv8>, v: seq<bv8>)
    requires Fresh(disk, bits) && MapOnDisk(disk, v) && |v| == BitBlocks(|disk|) * BLOCKSIZE
    ensures v == bits
  {
    hide Words, DecodeInode, MapSlice, BitBlocks, IsSet;
    var n := BitBlocks(|disk|);
    forall j: nat | j < n
      ensures MapSlice(v, j) == MapSlice(bits, j)
    {
      SliceFits(j, n);
    }
    SameBits(v, bits, n);
  }

  // ----- taking and giving back blocks

  /** A call of bitmap_alloc with its result, or of bitmap_unmark. */
  datatype SpaceOp = Alloc(r: AllocResult) | Free(b: nat)

  /** One call on a freemap of `nbits` bits of which the set `m` is marked. */
  predicate SpaceStep(m: set<nat>, m': set<nat>, nbits: nat, op: SpaceOp) {
    match op
    case Alloc(Got(i)) => i < nbits && i !in m && (forall j: nat | j < i :: j in m) && m' == m + {i}
    case Alloc(NoSpace) => (forall j: nat | j < nbits :: j in m) && m' == m
    case Free(b) => b < nbits && b in m && m' == m - {b}
  }

  /** What bitmap_alloc and bitmap_unmark do is such a step. */
  method RunAlloc(freemap: BitMap) returns (r: AllocResult)
    requires freemap.Valid()
    modifies freemap.v
    ensures freemap.Valid()
    ensures SpaceStep(old(freemap.Marked()), freemap.Marked(), freemap.nbits, Alloc(r))
  {
    r := freemap.Alloc();
    if r.NoSpace? {
      assert freemap.Marked() == old(freemap.Marked());
    }
  }

  /** The bits that mksfs sets for a volume of `n` blocks. */
  function MkfsBits(n: nat): set<nat> {
    Reserved(BitBlocks(n)) + Range(n, BitBlocks(n) * BLOCKBITS)
  }

  /** A run in which no reserved block and no block beyond the volume is given back, as the file system sees to. */
  ghost predicate SpaceRun(ms: seq<set<nat>>, ops: seq<SpaceOp>, n: nat) {
    && |ms| == |ops| + 1
    && forall i: nat | i < |ops| ::
         && SpaceStep(ms[i], ms[i + 1], BitBlocks(n) * BLOCKBITS, ops[i])
         && (ops[i].Free? ==> ops[i].b !in MkfsBits(n))
  }

  lemma {:induction false} ReservedStays(ms: seq<set<nat>>, ops: seq<SpaceOp>, n: nat, k: nat)
    requires SpaceRun(ms, ops, n) && ms[0] == MkfsBits(n) && k <= |ops|
    ensures MkfsBits(n) <= ms[k]
  {
    hide MkfsBits;
    if k > 0 {
      ReservedStays(ms, ops, n, k - 1);
      assert SpaceStep(ms[k - 1], ms[k], BitBlocks(n) * BLOCKBITS, ops[k - 1]);
    }
  }

  /**
   * From a new volume on, whatever has been taken and given back, the next block handed out is the least free
   * one, lies inside the volume and behind the reserved blocks; and only a full volume has none to give.
   */
  lemma AllocationStaysInside(ms: seq<set<nat>>, ops: seq<SpaceOp>, n: nat, k: nat)
    requires SpaceRun(ms, ops, n) && ms[0] == MkfsBits(n) && k < |ops| && ops[k].Alloc?
    ensures match ops[k].r
            case Got(i) =>
              MAP_LOCATION + BitBlocks(n) <= i < n && i !in ms[k] && forall j: nat | j < i :: j in ms[k]
            case NoSpace => forall j: nat | j < n :: j in ms[k]
  {
    ReservedStays(ms, ops, n, k);
    assert SpaceStep(ms[k], ms[k + 1], BitBlocks(n) * BLOCKBITS, ops[k]);
    RoundedUp(n);
  }

  /** What callers ask of the freemap; a block that is not theirs to give back is not given back. */
  datatype Request = Take | GiveBack(b: nat)

  lemma RunMore(ms: seq<set<nat>>, ops: seq<SpaceOp>, n: nat, m: set<nat>, op: SpaceOp)
    requires SpaceRun(ms, ops, n) && SpaceStep(ms[|ops|], m, BitBlocks(n) * BLOCKBITS, op)
    requires op.Free? ==> op.b !in MkfsBits(n)
    ensures SpaceRun(ms + [m], ops + [op], n)
  {
    hide SpaceStep, MkfsBits;
  }

  /**
   * Whatever is asked of the freemap of a new volume, its states form such a run, and every block that it hands
   * out lies inside the volume, behind the reserved blocks, and was free.
   */
  method RunSpace(freemap: BitMap, n: nat, requests: seq<Request>) returns (ops: seq<SpaceOp>, ghost ms: seq<set<nat>>)
    requires freemap.Valid() && freemap.nbits == BitBlocks(n) * BLOCKBITS && freemap.Marked() == MkfsBits(n)
    modifies freemap.v
    ensures freemap.Valid() && SpaceRun(ms, ops, n) && ms[0] == MkfsBits(n) && ms[|ops|] == freemap.Marked()
    ensures forall k: nat | k < |ops| && ops[k].Alloc? && ops[k].r.Got? ::
              MAP_LOCATION + BitBlocks(n) <= ops[k].r.index < n && ops[k].r.index !in ms[k]
    ensures forall k: nat | k < |ops| && ops[k] == Alloc(NoSpace) :: forall j: nat | j < n :: j in ms[k]
  {
    hide MkfsBits, SpaceStep, SpaceRun;
    ops, ms := [], [freemap.Marked()];
    EmptyRun(freemap.Marked(), n);
    var i := 0;
    while i < |requests|
      invariant i <= |requests| && freemap.Valid() && SpaceRun(ms, ops, n) && |ms| == |ops| + 1
      invariant ms[0] == MkfsBits(n) && ms[|ops|] == freemap.Marked()
    {
      match requests[i] {
        case Take =>
          var r := RunAlloc(freemap);
          RunMore(ms, ops, n, freemap.Marked(), Alloc(r));
          ops, ms := ops + [Alloc(r)], ms + [freemap.Marked()];
        case GiveBack(b) =>
          if MAP_LOCATION + BitBlocks(n) <= b < n {
            RoundedUp(n);
            var used := freemap.IsMarked(b);
            if used {
              ghost var m := freemap.Marked();
              freemap.Unmark(b);
              FreeStep(m, freemap.Marked(), n, b);
              RunMore(ms, ops, n, freemap.Marked(), Free(b));
              ops, ms := ops + [Free(b)], ms + [freemap.Marked()];
            }
          }
      }
      i := i + 1;
    }
    forall k: nat | k < |ops| && ops[k].Alloc?
      ensures match ops[k].r
              case Got(i) => MAP_LOCATION + BitBlocks(n) <= i < n && i !in ms[k]
              case NoSpace => forall j: nat | j < n :: j in ms[k]
    {
      AllocationStaysInside(ms, ops, n, k);
    }
  }

  lemma EmptyRun(m: set<nat>, n: nat)
    ensures SpaceRun([m], [], n)
  {
  }

  lemma FreeStep(m: set<nat>, m': set<nat>, n: nat, b: nat)
    requires b in m && m' == m - {b} && MAP_LOCATION + BitBlocks(n) <= b < n <= BitBlocks(n) * BLOCKBITS
    ensures SpaceStep(m, m', BitBlocks(n) * BLOCKBITS, Free(b)) && b !in MkfsBits(n)
  {
  }

  lemma RoundedUp(n: nat)
    ensures n <= BitBlocks(n) * BLOCKBITS
  {
  }
}
