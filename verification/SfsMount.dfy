/** sfs_fs.c: writing everything back, unmounting, and mounting again. */
module SfsMount {
  import Arithmetic
  import opened SfsLayout
  import opened SfsTree
  import opened SfsMap
  import opened SfsVolume
  import opened SfsIo
  import opened SfsDirent
  import opened SfsState
  import opened SfsChanges
  import opened SfsFileSystem
  import opened Bitmap
  import opened Errno

  // ----- the freemap between memory and disk

  /** The disk with the first `n` parts of the freemap written. */
  ghost predicate MapWritten(disk: Disk, disk': Disk, bits: seq<bv8>, n: nat) {
    && |disk'| == |disk| && n * BLOCKSIZE <= |bits|
    && (forall x: nat | x < |disk| && !(MAP_LOCATION <= x < MAP_LOCATION + n) :: disk'[x] == disk[x])
    && (forall j: nat | j < n && MapBlock(j) < |disk| :: disk'[MapBlock(j)] == MapSlice(bits, j))
  }

  lemma MapWrittenStep(disk: Disk, disk1: Disk, disk2: Disk, bits: seq<bv8>, n: nat)
    requires MapWritten(disk, disk1, bits, n) && (n + 1) * BLOCKSIZE <= |bits| && MapBlock(n) < |disk|
    requires disk2 == disk1[MapBlock(n) := MapSlice(bits, n)]
    ensures MapWritten(disk, disk2, bits, n + 1)
  {
    hide MapSlice;
  }

  /** sfs_mapio for writing. */
  method WriteMap(vol: Volume)
    requires vol.Valid() && vol.freemap.v.Length == BitBlocks(|vol.disk|) * BLOCKSIZE
    requires MAP_LOCATION + BitBlocks(|vol.disk|) <= |vol.disk|
    modifies vol`disk
    ensures vol.Valid() && |vol.disk| == |old(vol.disk)|
    ensures MapWritten(old(vol.disk), vol.disk, vol.freemap.v[..], BitBlocks(|vol.disk|))
  {
    hide Volume.Valid, MapWritten, MapSlice;
    ghost var disk := vol.disk;
    var mapsize := BitBlocks(|vol.disk|);
    var j := 0;
    NothingWritten(disk, vol.freemap.v[..]);
    while j < mapsize
      invariant j <= mapsize && vol.Valid() && |vol.disk| == |disk|
      invariant MapWritten(disk, vol.disk, vol.freemap.v[..], j)
    {
      ghost var before := vol.disk;
      vol.WriteBlock(MapBlock(j), MapSlice(vol.freemap.v[..], j));
      MapWrittenStep(disk, before, vol.disk, vol.freemap.v[..], j);
      j := j + 1;
    }
  }

  lemma NothingWritten(disk: Disk, bits: seq<bv8>)
    ensures MapWritten(disk, disk, bits, 0)
  {
  }

  function Place(j: nat, k: nat): nat {
    j * BLOCKSIZE + k
  }

  /** A byte of a block as a byte of the bitmap. */
  function Char(x: int): bv8
    requires 0 <= x < 256
  {
    x as bv8
  }

  lemma CharIs(x: int)
    requires 0 <= x < 256
    ensures Char(x) as int == x
  {
    Arithmetic.ByteThereAndBack(x);
  }

  lemma CharsAre(block: Block, v: seq<bv8>, base: nat)
    requires base + BLOCKSIZE <= |v| && forall m: nat | m < BLOCKSIZE :: v[base + m] == Char(block[m])
    ensures forall m: nat | m < BLOCKSIZE :: block[m] == v[base + m] as int
  {
    hide Char;
    forall m: nat | m < BLOCKSIZE
      ensures block[m] == v[base + m] as int
    {
      CharIs(block[m]);
    }
  }

  /** sfs_rblock into part `j` of the bits. */
  method ReadMapBlock(block: Block, v: array<bv8>, j: nat)
    requires (j + 1) * BLOCKSIZE <= v.Length
    modifies v
    ensures block == MapSlice(v[..], j)
    ensures forall i: nat | i < j * BLOCKSIZE :: v[i] == old(v[i])
  {
    hide Char;
    var k, base := 0, j * BLOCKSIZE;
    while k < BLOCKSIZE
      invariant k <= BLOCKSIZE
      invariant forall m: nat | m < k :: v[base + m] == Char(block[m])
      invariant forall i: nat | i < base :: v[i] == old(v[i])
    {
      v[base + k] := Char(block[k]);
      k := k + 1;
    }
    CharsAre(block, v[..], base);
  }

  lemma SliceKept(v: seq<bv8>, w: seq<bv8>, j: nat, n: nat)
    requires j < n && n * BLOCKSIZE <= |v| == |w| && forall i: nat | i < n * BLOCKSIZE :: w[i] == v[i]
    ensures MapSlice(w, j) == MapSlice(v, j)
  {
    assert (j + 1) * BLOCKSIZE <= n * BLOCKSIZE;
  }

  /** sfs_mapio for reading: the bytes of the freemap blocks become the bits. */
  method ReadMap(disk: Disk, freemap: BitMap)
    requires freemap.v.Length == BitBlocks(|disk|) * BLOCKSIZE && MAP_LOCATION + BitBlocks(|disk|) <= |disk|
    modifies freemap.v
    ensures MapOnDisk(disk, freemap.v[..])
  {
    hide BitBlocks, MapSlice;
    var mapsize := BitBlocks(|disk|);
    var j := 0;
    while j < mapsize
      invariant j <= mapsize
      invariant forall i: nat | i < j :: disk[MapBlock(i)] == MapSlice(freemap.v[..], i)
    {
      ghost var before := freemap.v[..];
      ReadMapBlock(disk[MapBlock(j)], freemap.v, j);
      forall i: nat | i < j
        ensures MapSlice(freemap.v[..], i) == MapSlice(before, i)
      {
        SliceKept(before, freemap.v[..], i, j);
      }
      j := j + 1;
    }
  }

  /** Bits are determined by the blocks they are written to. */
  lemma SameBits(v: seq<bv8>, w: seq<bv8>, n: nat)
    requires |v| == |w| == n * BLOCKSIZE && forall j: nat | j < n :: MapSlice(v, j) == MapSlice(w, j)
    ensures v == w
  {
    forall i: nat | i < |v|
      ensures v[i] == w[i]
    {
      var j, k := i / BLOCKSIZE, i % BLOCKSIZE;
      assert j < n && (j + 1) * BLOCKSIZE <= |v|;
      assert MapSlice(v, j)[k] == v[i] as int;
      assert MapSlice(w, j)[k] == w[i] as int;
      assert (v[i] as int) as bv8 == v[i] && (w[i] as int) as bv8 == w[i];
    }
  }

  // ----- sync

  /** Writing the freemap to its blocks disturbs no file. */
  lemma MapWrittenAt(fs: Fs, gs: Fs, x: nat)
    requires Core(fs) && BootOk(fs) && gs.owner == fs.owner && gs.table == fs.table
    requires MapWritten(fs.disk, gs.disk, fs.freemap.bits, BitBlocks(|fs.disk|))
    requires fs.IsInode(x) && x < |fs.disk|
    ensures gs.disk[x] == fs.disk[x] && gs.InodeOf(x) == fs.InodeOf(x) && Alike(fs, gs, x) && InodeOk(gs, x)
  {
    hide TableOk, InodesOk, BitBlocks, Words, MapSlice;
    InodeOkAt(fs, x);
    MapRoles(fs);
    TreeElsewhere(fs, gs, x);
    forall i: nat
      ensures ByteAt(gs.Of(x), i) == ByteAt(fs.Of(x), i)
    {
      ByteElsewhere(fs, gs, x, i);
    }
  }

  /** No block of the freemap has another role. */
  lemma MapRoles(fs: Fs)
    requires BootOk(fs)
    ensures forall b: nat | MAP_LOCATION <= b < MAP_LOCATION + BitBlocks(|fs.disk|) ::
              b in fs.owner && fs.owner[b] == FreemapBlock
  {
    forall b: nat | MAP_LOCATION <= b < MAP_LOCATION + BitBlocks(|fs.disk|)
      ensures b in fs.owner && fs.owner[b] == FreemapBlock
    {
      assert MapBlock(b - MAP_LOCATION) == b;
    }
  }

  lemma TreeElsewhere(fs: Fs, gs: Fs, x: nat)
    requires x < |fs.disk| && fs.Of(x).Ok(x) && gs.owner == fs.owner && |gs.disk| == |fs.disk|
    requires gs.InodeOf(x) == fs.InodeOf(x)
    requires forall b: nat | b < |fs.disk| && gs.disk[b] != fs.disk[b] :: b in fs.owner && fs.owner[b] == FreemapBlock
    ensures gs.Of(x).Ok(x) && forall s | ValidSlot(s) :: gs.Of(x).At(s) == fs.Of(x).At(s)
  {
    FrameTree(ImageOf(fs.disk), ImageOf(gs.disk), fs.owner, gs.owner, x, fs.InodeOf(x));
  }

  lemma ByteElsewhere(fs: Fs, gs: Fs, x: nat, i: nat)
    requires x < |fs.disk| && fs.Of(x).Ok(x) && |gs.disk| == |fs.disk| && gs.InodeOf(x).Shape()
    requires forall b: nat | b < |fs.disk| && gs.disk[b] != fs.disk[b] :: b in fs.owner && fs.owner[b] == FreemapBlock
    requires forall s | ValidSlot(s) :: gs.Of(x).At(s) == fs.Of(x).At(s)
    ensures ByteAt(gs.Of(x), i) == ByteAt(fs.Of(x), i)
  {
    var p := PlaceOf(i / BLOCKSIZE);
    if p.At? && fs.Of(x).At(p.slot) != 0 {
      SlotInVolume(fs.Of(x), x, p.slot);
    }
  }

  lemma MapWrittenCore(fs: Fs, gs: Fs)
    requires Core(fs) && BootOk(fs) && gs.owner == fs.owner && gs.table == fs.table
    requires gs.freemap == FreeMap(fs.freemap.bits, false)
    requires MapWritten(fs.disk, gs.disk, fs.freemap.bits, BitBlocks(|fs.disk|))
    ensures Core(gs) && BootOk(gs) && forall x: nat :: gs.IsInode(x) <==> fs.IsInode(x)
    ensures forall x: nat | fs.IsInode(x) && x < |fs.disk| && x < |gs.disk| ::
              gs.InodeOf(x) == fs.InodeOf(x) && Alike(fs, gs, x)
  {
    hide InodeOk, Alike, Faithful, MapSlice, BitBlocks, Words;
    forall x: nat | fs.IsInode(x) && x < |fs.disk|
      ensures gs.disk[x] == fs.disk[x] && gs.InodeOf(x) == fs.InodeOf(x) && Alike(fs, gs, x) && InodeOk(gs, x)
    {
      MapWrittenAt(fs, gs, x);
    }
    MapWrittenBoot(fs, gs);
  }

  lemma MapWrittenBoot(fs: Fs, gs: Fs)
    requires BootOk(fs) && gs.owner == fs.owner && gs.freemap == FreeMap(fs.freemap.bits, false)
    requires MapWritten(fs.disk, gs.disk, fs.freemap.bits, BitBlocks(|fs.disk|))
    ensures BootOk(gs)
  {
    hide MapSlice, BitBlocks, Words;
  }

  lemma MapWrittenFs(fs: Fs, gs: Fs)
    requires FsOk(fs) && Core(fs) && gs.owner == fs.owner && gs.table == fs.table
    requires gs.freemap == FreeMap(fs.freemap.bits, false)
    requires MapWritten(fs.disk, gs.disk, fs.freemap.bits, BitBlocks(|fs.disk|))
    ensures FsOk(gs) && Core(gs) && ViewOf(gs) == ViewOf(fs)
  {
    hide Core, Dir, DirOk, FileView, Alike, InodeOk, Links, LinkedBut, KeptOk, BootOk, MapWritten, BitBlocks;
    RootOk(fs);
    MapWrittenCore(fs, gs);
    RootOk(gs);
    SameKept(fs, gs);
    ViewKept(fs, gs, 0);
    SameLinks(fs, gs, 0, 0);
    FilesAt(fs, 0);
  }

  /** sfs_sync: every inode in memory and the freemap are written; nobody can tell the difference. */
  method Sync(fs: SfsFs)
    requires fs.Valid()
    modifies fs.vol, fs.vnodes
    ensures fs.Valid() && fs.View() == old(fs.View())
    ensures !fs.vol.freemapDirty && forall sv | sv in fs.vnodes :: !sv.dirty
  {
    hide Mirrors, TableOf, SfsFs.Table, FsOkBut, Core, Volume.Valid, Dir, FileView, BootOk, MapWritten;
    FsParts(fs.State(), 0, 0);
    ghost var v := fs.View();
    var i := 0;
    while i < |fs.vnodes|
      invariant i <= |fs.vnodes| && fs.Valid() && Core(fs.State()) && fs.View() == v
      invariant forall j: nat | j < i :: !fs.vnodes[j].dirty
    {
      ghost var gs := fs.State();
      fs.Listed(i);
      fs.SyncInode(fs.vnodes[i]);
      SyncedFs(gs, fs.State(), fs.vnodes[i].ino, 0, 0);
      FsParts(fs.State(), 0, 0);
      i := i + 1;
    }
    if fs.vol.freemapDirty {
      WriteFreemap(fs);
    }
  }

  /** The part of sfs_sync that writes the freemap. */
  method WriteFreemap(fs: SfsFs)
    requires fs.Valid()
    modifies fs.vol
    ensures fs.Valid() && Core(fs.State()) && fs.View() == old(fs.View()) && !fs.vol.freemapDirty
  {
    hide Mirrors, TableOf, SfsFs.Table, FsOkBut, Core, Volume.Valid, Dir, FileView, BootOk, MapWritten, BitBlocks;
    ghost var gs := fs.State();
    FsParts(gs, 0, 0);
    BootSizes(gs);
    WriteMap(fs.vol);
    fs.vol.MapClean();
    MapWrittenFs(gs, fs.State());
  }

  lemma BootSizes(fs: Fs)
    requires FsOk(fs)
    ensures |fs.freemap.bits| == BitBlocks(|fs.disk|) * BLOCKSIZE && MAP_LOCATION + BitBlocks(|fs.disk|) <= |fs.disk|
  {
    hide Dir, InodesOk, TableOk, DirOk, LinkedBut, KeptOk, Words;
    MapFits(fs);
  }

  lemma MapFits(fs: Fs)
    requires RolesOk(fs) && BootOk(fs)
    ensures |fs.freemap.bits| == BitBlocks(|fs.disk|) * BLOCKSIZE && MAP_LOCATION + BitBlocks(|fs.disk|) <= |fs.disk|
  {
    hide Words;
    var n := BitBlocks(|fs.disk|);
    assert n > 0;
    assert MapBlock(n - 1) in fs.owner;
  }

  // ----- unmount and mount

  /** sfs_domount on a device that holds all the blocks that its superblock speaks of. */
  method DoMount(device: Disk, memory: bool, ghost owner: Owner) returns (r: Result, fs: SfsFs?)
    requires |device| > 0
    requires Words(device[SB_LOCATION])[0] == SFS_MAGIC ==>
               var n := Words(device[SB_LOCATION])[1];
               MAP_LOCATION + BitBlocks(n) <= n <= |device|
    ensures r == Err(ENOMEM) <==> !memory
    ensures r == Err(EINVAL) <==> memory && Words(device[SB_LOCATION])[0] != SFS_MAGIC
    ensures r in {Success, Err(ENOMEM), Err(EINVAL)}
    ensures r == Success ==>
              && fs != null && fresh(fs) && fresh(fs.vol) && fresh(fs.vol.freemap.v) && fs.Shape() && fs.table == map[]
                  && fs.vnodes == []
              && fs.vol.disk == device[..Words(device[SB_LOCATION])[1]] && fs.vol.owner == owner
              && !fs.vol.freemapDirty && MapOnDisk(fs.vol.disk, fs.vol.freemap.v[..])
              && fs.vol.freemap.v.Length == BitBlocks(|fs.vol.disk|) * BLOCKSIZE
              && fs.vol.freemap.nbits == fs.vol.freemap.v.Length * BITS_PER_WORD
  {
    hide Words, BitBlocks, MapOnDisk;
    fs := null;
    if !memory {
      return Err(ENOMEM), null;
    }
    var super := Words(device[SB_LOCATION]);
    if super[0] != SFS_MAGIC {
      return Err(EINVAL), null;
    }
    var disk := device[..super[1]];
    var freemap := new BitMap(BitBlocks(super[1]) * BLOCKSIZE * BITS_PER_WORD);
    ReadMap(disk, freemap);
    var vol := new Volume(disk, freemap, owner);
    fs := new SfsFs(vol);
    r := Success;
  }

  /** The bits of the freemap are those that the blocks on disk hold. */
  lemma BitsOnDisk(fs: Fs, gs: Fs)
    requires RolesOk(fs) && BootOk(fs) && !fs.freemap.dirty && gs.disk == fs.disk
    requires MapOnDisk(gs.disk, gs.freemap.bits) && |gs.freemap.bits| == BitBlocks(|gs.disk|) * BLOCKSIZE
    ensures gs.freemap.bits == fs.freemap.bits
  {
    hide MapSlice, Words, BitBlocks;
    MapFits(fs);
    var n := BitBlocks(|fs.disk|);
    forall j: nat | j < n
      ensures MapSlice(fs.freemap.bits, j) == MapSlice(gs.freemap.bits, j)
    {
      assert MapBlock(j) in fs.owner;
      SliceFits(j, n);
    }
    SameBits(fs.freemap.bits, gs.freemap.bits, n);
  }

  lemma SliceFits(j: nat, n: nat)
    requires j < n
    ensures (j + 1) * BLOCKSIZE <= n * BLOCKSIZE
  {
  }

  lemma BootParts(fs: Fs)
    requires FsOk(fs)
    ensures RolesOk(fs) && BootOk(fs) && Core(fs)
    ensures |fs.disk| > 0 && Words(fs.disk[SB_LOCATION])[0] == SFS_MAGIC && Words(fs.disk[SB_LOCATION])[1] == |fs.disk|
  {
    hide Words, MapOnDisk, BitBlocks;
  }

  /** What a mount finds on a device, if the freemap blocks hold `bits`. */
  ghost function OnDevice(device: Disk, owner: Owner, bits: seq<bv8>): Fs {
    Fs(device, owner, FreeMap(bits, false), map[])
  }

  /** The device determines the freemap, and with it a sound file system that looks like `v`. */
  ghost predicate Holds(device: Disk, owner: Owner, v: View) {
    forall bits: seq<bv8> | |bits| == BitBlocks(|device|) * BLOCKSIZE && MapOnDisk(device, bits) ::
      FsOk(OnDevice(device, owner, bits)) && ViewOf(OnDevice(device, owner, bits)) == v
  }

  lemma HoldsAll(fs: Fs)
    requires FsOk(fs) && Core(fs) && !fs.freemap.dirty && fs.table == map[]
    ensures Holds(fs.disk, fs.owner, ViewOf(fs))
  {
    hide Core, Dir, FileView, DirOk, LinkedBut, KeptOk, BootOk, MapOnDisk, BitBlocks;
    BootParts(fs);
    forall bits: seq<bv8> | |bits| == BitBlocks(|fs.disk|) * BLOCKSIZE && MapOnDisk(fs.disk, bits)
      ensures OnDevice(fs.disk, fs.owner, bits) == fs
    {
      BitsOnDisk(fs, OnDevice(fs.disk, fs.owner, bits));
    }
  }

  /** The file system is busy exactly as long as somebody holds a reference. */
  lemma HeldIsLoaded(fs: SfsFs)
    requires fs.Valid()
    ensures Core(fs.State()) && (fs.vnodes == [] <==> fs.View().refs == map[])
  {
    hide FsOkBut, Core, Volume.Valid, Dir, FileView;
    FsParts(fs.State(), 0, 0);
    fs.TableKeys();
    if fs.vnodes == [] {
      fs.EmptyTable();
    } else {
      fs.Listed(0);
      assert fs.vnodes[0].ino in fs.View().refs;
    }
  }

  /**
   * sfs_unmount, which the VFS layer calls after a sync: refused while somebody holds a file. Otherwise the
   * device alone is enough to find everything again.
   */
  method Unmount(fs: SfsFs) returns (r: Result, device: Disk)
    requires fs.Valid() && !fs.vol.freemapDirty
    ensures r in {Success, Err(EBUSY)} && (r == Err(EBUSY) <==> fs.View().refs != map[])
    ensures r == Success ==> device == fs.vol.disk && Holds(device, fs.vol.owner, fs.View())
  {
    hide Mirrors, TableOf, SfsFs.Table, FsOkBut, Core, Volume.Valid, Dir, FileView, Holds;
    HeldIsLoaded(fs);
    device := [];
    if |fs.vnodes| > 0 {
      return Err(EBUSY), device;
    }
    fs.EmptyTable();
    HoldsAll(fs.State());
    device := fs.vol.disk;
    r := Success;
  }

  /** A volume is determined by its disk, its owners, and the bits of its freemap. */
  lemma SameVolume(vol: Volume, vol2: Volume)
    requires vol.Valid() && vol2.disk == vol.disk && vol2.owner == vol.owner
    requires vol2.freemap.v[..] == vol.freemap.v[..] && vol2.freemap.nbits == vol2.freemap.v.Length * BITS_PER_WORD
    ensures vol2.Valid()
  {
    var v, w := vol.freemap.v[..], vol2.freemap.v[..];
    assert |v| == |w|;
  }

  /**
   * When nobody holds a file, syncing, unmounting and mounting again gives back all names, the bytes of all
   * files, and the freemap.
   */
  method Remount(fs: SfsFs) returns (r: Result, fs2: SfsFs?)
    requires fs.Valid() && fs.vnodes == []
    modifies fs.vol
    ensures r == Success && fs2 != null && fs2.Valid() && fs2.vnodes == []
    ensures fs2.View() == old(fs.View())
    ensures fs2.vol.owner == fs.vol.owner && fs2.vol.freemap.v[..] == old(fs.vol.freemap.v[..])
  {
    hide Mirrors, TableOf, FsOkBut, Core, Volume.Valid, Dir, FileView, BootOk, MapWritten, Words, BitBlocks, MapOnDisk;
    Sync(fs);
    HeldIsLoaded(fs);
    var device: Disk;
    r, device := Unmount(fs);
    ghost var gs := fs.State();
    BootParts(gs);
    BootSizes(gs);
    assert device[..|device|] == device;
    r, fs2 := DoMount(device, true, fs.vol.owner);
    BitsOnDisk(gs, OnDevice(fs2.vol.disk, fs2.vol.owner, fs2.vol.freemap.v[..]));
    SameVolume(fs.vol, fs2.vol);
    fs.EmptyTable();
    fs2.EmptyTable();
    assert fs2.State() == gs;
  }
}
