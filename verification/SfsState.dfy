/** A mounted file system as a value: what holds between calls, and what each kind of change does to it. */
module SfsState {
  import opened SfsLayout
  import opened SfsTree
  import opened SfsMap
  import opened SfsVolume
  import opened SfsIo
  import opened SfsTruncate
  import opened SfsFile
  import opened SfsRuns
  import opened SfsDirent
  import opened UioModel

  /** A vnode in memory. */
  datatype Vnode = Vnode(inode: Inode, dirty: bool, refcount: nat)

  /** The disk, the owners of its blocks, the freemap, and the table of vnodes by inode number. */
  datatype Fs = Fs(disk: Disk, owner: Owner, freemap: FreeMap, table: map<nat, Vnode>) {
    predicate IsInode(ino: nat) {
      ino in owner && owner[ino] == InodeBlock
    }

    /** The inode as the system sees it: the copy in memory if there is one. */
    function InodeOf(ino: nat): (n: Inode)
      requires ino in table || ino < |disk|
    {
      if ino in table then table[ino].inode else DecodeInode(disk[ino])
    }

    function Of(ino: nat): Snap
      requires ino in table || ino < |disk|
    {
      Snap(disk, owner, freemap, InodeOf(ino), ino in table && table[ino].dirty)
    }
  }

  // ----- what holds between calls

  /** Blocks belong to files that exist, and there is a root directory. */
  ghost predicate RolesOk(fs: Fs) {
    && (forall b | b in fs.owner :: b < |fs.disk|)
    && (forall b | b in fs.owner && (fs.owner[b].Tree? || fs.owner[b].Lost?) :: fs.IsInode(fs.owner[b].ino))
    && fs.IsInode(ROOT_LOCATION) && 0 in fs.owner && fs.owner[0] == Superblock && |fs.disk| <= WORD_LIMIT
  }

  predicate InRange(n: Inode) {
    && n.Shape() && n.size < OFF_LIMIT && n.linkcount < HALF_LIMIT && n.blocks < WORD_LIMIT
    && forall i: nat | i < NWASTE :: n.waste[i] < WORD_LIMIT
  }

  ghost predicate InodeOk(fs: Fs, ino: nat)
    requires ino in fs.table || ino < |fs.disk|
  {
    && fs.Of(ino).Ok(ino) && InRange(fs.InodeOf(ino))
    && fs.InodeOf(ino).typ == if ino == ROOT_LOCATION then TYPE_DIR else TYPE_FILE
  }

  ghost predicate InodesOk(fs: Fs)
    requires RolesOk(fs)
  {
    forall ino | fs.IsInode(ino) :: InodeOk(fs, ino)
  }

  /** A vnode that is not dirty agrees with the disk on every field but sfi_blocks. */
  predicate Faithful(v: Vnode, b: Block) {
    !v.dirty ==> v.inode == DecodeInode(b).(blocks := v.inode.blocks)
  }

  /** The table caches inodes that exist. */
  ghost predicate TableOk(fs: Fs)
    requires RolesOk(fs)
  {
    forall ino | ino in fs.table :: fs.IsInode(ino) && fs.table[ino].refcount > 0
        && Faithful(fs.table[ino], fs.disk[ino])
  }

  ghost predicate Core(fs: Fs) {
    RolesOk(fs) && InodesOk(fs) && TableOk(fs)
  }

  /** The entries of the root directory. */
  ghost function Dir(fs: Fs): (es: seq<Entry>)
    requires Core(fs)
  {
    assert fs.IsInode(ROOT_LOCATION);
    var dir := Contents(fs.Of(ROOT_LOCATION));
    if |dir| % DIRENT == 0 then Entries(dir) else []
  }

  /** The directory has whole entries and no holes, no name twice, and only inodes that exist. */
  ghost predicate DirOk(fs: Fs)
    requires Core(fs)
  {
    assert fs.IsInode(ROOT_LOCATION);
    && fs.InodeOf(ROOT_LOCATION).size % DIRENT == 0
    && Dense(fs.Of(ROOT_LOCATION), fs.InodeOf(ROOT_LOCATION).size)
    && EntriesOk(fs, Dir(fs))
  }

  ghost predicate EntriesOk(fs: Fs, es: seq<Entry>) {
    Unique(es) && forall k: nat | k < |es| && es[k].Live() :: fs.IsInode(es[k].ino)
  }

  /** Link counts are right, but for that of `ino0`, which is `d` behind. */
  ghost predicate LinkedBut(fs: Fs, ino0: nat, d: int)
    requires Core(fs)
  {
    CountsLinks(fs, Dir(fs), ino0, d)
  }

  ghost predicate CountsLinks(fs: Fs, es: seq<Entry>, ino0: nat, d: int)
    requires Core(fs)
  {
    forall ino | fs.IsInode(ino) ::
      InodeOk(fs, ino) &&
      fs.InodeOf(ino).linkcount + (if ino == ino0 then d else 0)
      == Links(es, ino) + (if ino == ROOT_LOCATION then 1 else 0)
  }

  /** An inode exists only as long as it has a name or a vnode. */
  ghost predicate KeptOk(fs: Fs)
    requires Core(fs)
  {
    forall ino | fs.IsInode(ino) :: ino in fs.table || (InodeOk(fs, ino) && fs.InodeOf(ino).linkcount > 0)
  }

  const SFS_MAGIC: nat := 0xabadf001

  /** How many blocks the freemap of a volume of `n` blocks takes. */
  function BitBlocks(n: nat): nat {
    (n + BLOCKSIZE * 8 - 1) / (BLOCKSIZE * 8)
  }

  /** The disk block that holds part `j` of the freemap. */
  function MapBlock(j: nat): nat {
    MAP_LOCATION + j
  }

  /** Part `j` of the bits, as the bytes of one block. */
  function MapSlice(bits: seq<bv8>, j: nat): Block
    requires (j + 1) * BLOCKSIZE <= |bits|
  {
    seq<byte>(BLOCKSIZE, k requires 0 <= k < BLOCKSIZE => bits[j * BLOCKSIZE + k] as int)
  }

  /** The blocks of the freemap hold these bits. */
  ghost predicate MapOnDisk(disk: Disk, bits: seq<bv8>) {
    forall j: nat | (j + 1) * BLOCKSIZE <= |bits| && MapBlock(j) < |disk| :: disk[MapBlock(j)] == MapSlice(bits, j)
  }

  /** The superblock is that of this volume, and while the freemap is not dirty it is as on disk. */
  ghost predicate BootOk(fs: Fs) {
    && |fs.disk| > 0 && Words(fs.disk[SB_LOCATION])[0] == SFS_MAGIC && Words(fs.disk[SB_LOCATION])[1] == |fs.disk|
    && |fs.freemap.bits| == BitBlocks(|fs.disk|) * BLOCKSIZE
    && (forall j: nat | j < BitBlocks(|fs.disk|) :: MapBlock(j) in fs.owner && fs.owner[MapBlock(j)] == FreemapBlock)
    && (!fs.freemap.dirty ==> MapOnDisk(fs.disk, fs.freemap.bits))
  }

  /** Nothing but sfs_mapio writes those blocks. */
  ghost predicate BootKept(fs: Fs, gs: Fs) {
    && |gs.disk| == |fs.disk| && MapKept(fs.freemap, gs.freemap)
    && forall x: nat | x in fs.owner && (fs.owner[x] == Superblock || fs.owner[x] == FreemapBlock) && x < |fs.disk| ::
         x in gs.owner && gs.owner[x] == fs.owner[x] && gs.disk[x] == fs.disk[x]
  }

  lemma BootStaysOk(fs: Fs, gs: Fs)
    requires RolesOk(fs) && BootOk(fs) && BootKept(fs, gs)
    ensures BootOk(gs)
  {
    hide Words, MapSlice, MapBlock, BitBlocks;
    if !gs.freemap.dirty {
      forall j: nat | (j + 1) * BLOCKSIZE <= |gs.freemap.bits| && MapBlock(j) < |gs.disk|
        ensures gs.disk[MapBlock(j)] == MapSlice(gs.freemap.bits, j)
      {
        assert j < BitBlocks(|fs.disk|);
      }
    }
  }

  ghost predicate FsOkBut(fs: Fs, ino0: nat, d: int) {
    Core(fs) && DirOk(fs) && LinkedBut(fs, ino0, d) && KeptOk(fs) && BootOk(fs)
  }

  ghost predicate FsOk(fs: Fs) {
    FsOkBut(fs, 0, 0)
  }

  // ----- what the file system means

  /** Names, the data of each file, and how many references to each file are held. */
  datatype View = View(dir: map<Name, nat>, files: map<nat, FileData>, refs: map<nat, nat>)

  ghost function FileView(fs: Fs): (m: map<nat, FileData>)
    requires Core(fs)
  {
    map ino | ino in fs.owner && fs.IsInode(ino) && ino != ROOT_LOCATION && InodeOk(fs, ino) :: DataOf(fs.Of(ino))
  }

  function Refs(fs: Fs): (m: map<nat, nat>) {
    map ino | ino in fs.table :: fs.table[ino].refcount
  }

  ghost function ViewOf(fs: Fs): View
    requires Core(fs)
  {
    View(Bindings(Dir(fs)), FileView(fs), Refs(fs))
  }

  // ----- a call on one file

  /** A read, write or truncation took the file of vnode `ino` from `fs` to `gs`. */
  ghost predicate Called(fs: Fs, gs: Fs, ino: nat, op: FileOp) {
    && ino in fs.table && ino in gs.table
    && gs.table == fs.table[ino := gs.table[ino]] && gs.table[ino].refcount == fs.table[ino].refcount
    && FileStep(fs.Of(ino), gs.Of(ino), ino, op)
    && gs.table[ino].inode.size < OFF_LIMIT && gs.table[ino].inode.blocks < WORD_LIMIT
  }

  /** The parts of a file step that concern the roles, the blocks of inodes, and the other fields of the inode. */
  lemma StepRoles(a: Snap, b: Snap, ino: nat, op: FileOp)
    requires FileStep(a, b, ino, op) && (forall x | x in a.owner :: x < |a.disk|)
    ensures |b.disk| == |a.disk|
    ensures forall x | x in a.owner && !ChargedTo(a.owner[x], ino) ::
              x in b.owner && b.owner[x] == a.owner[x] && b.disk[x] == a.disk[x]
    ensures forall x | x in b.owner && !ChargedTo(b.owner[x], ino) :: x in a.owner && b.owner[x] == a.owner[x]
    ensures b.inode.typ == a.inode.typ && b.inode.linkcount == a.inode.linkcount && b.inode.waste == a.inode.waste
    ensures StaysClean(a, b)
  {
    hide TreeOk, Wrap, Ptr;
  }

  /** Another file: its inode is the same, and so are its pointers and its bytes. */
  ghost predicate Untouched(fs: Fs, gs: Fs, x: nat)
    requires x in fs.table || x < |fs.disk|
    requires x in gs.table || x < |gs.disk|
  {
    && gs.Of(x).inode == fs.Of(x).inode && gs.Of(x).dirty == fs.Of(x).dirty
    && fs.Of(x).Ok(x) && gs.Of(x).Ok(x)
    && (forall s | ValidSlot(s) :: gs.Of(x).At(s) == fs.Of(x).At(s))
    && DataOf(gs.Of(x)) == DataOf(fs.Of(x))
  }

  lemma CallOthers(fs: Fs, gs: Fs, ino: nat, op: FileOp, x: nat)
    requires Core(fs) && Called(fs, gs, ino, op) && fs.IsInode(x) && x != ino
    ensures x < |gs.disk| && gs.IsInode(x) && Untouched(fs, gs, x) && gs.disk[x] == fs.disk[x]
  {
    hide FileStep, TableOk, TreeOk, FileByte;
    var a, b := fs.Of(ino), gs.Of(ino);
    StepRoles(a, b, ino, op);
    InodeOkAt(fs, x);
    StepFrames(a, b, ino, op, x, fs.InodeOf(x));
    SameFileBytes(fs.Of(x), gs.Of(x));
  }

  lemma InodeOkAt(fs: Fs, x: nat)
    requires Core(fs) && fs.IsInode(x)
    ensures x < |fs.disk| && InodeOk(fs, x) && fs.Of(x).Ok(x)
  {
  }

  lemma CallBoot(fs: Fs, gs: Fs, ino: nat, op: FileOp)
    requires Core(fs) && Called(fs, gs, ino, op)
    ensures BootKept(fs, gs)
  {
    hide FileStep, InodesOk, TableOk;
    StepRoles(fs.Of(ino), gs.Of(ino), ino, op);
  }

  lemma CallKeeps(fs: Fs, gs: Fs, ino: nat, op: FileOp)
    requires Core(fs) && Called(fs, gs, ino, op) && forall b | b in gs.owner :: b < |gs.disk|
    ensures Core(gs) && forall x: nat :: gs.IsInode(x) <==> fs.IsInode(x)
    ensures forall x: nat | fs.IsInode(x) && x != ino :: Untouched(fs, gs, x)
    ensures gs.InodeOf(ino).linkcount == fs.InodeOf(ino).linkcount
  {
    hide FileStep, TreeOk, InRange, Untouched, InodeOk, Faithful, StaysClean;
    var a, b := fs.Of(ino), gs.Of(ino);
    assert fs.IsInode(ino);
    StepRoles(a, b, ino, op);
    forall x: nat | fs.IsInode(x) && x != ino
      ensures gs.IsInode(x) && x < |gs.disk| && Untouched(fs, gs, x) && InodeOk(gs, x) && gs.disk[x] == fs.disk[x]
    {
      CallOthers(fs, gs, ino, op, x);
      UntouchedOk(fs, gs, x);
    }
    CalledOk(fs, gs, ino, op);
  }

  lemma UntouchedOk(fs: Fs, gs: Fs, x: nat)
    requires Core(fs) && fs.IsInode(x) && x < |gs.disk| && Untouched(fs, gs, x)
    ensures InodeOk(gs, x)
  {
    hide TreeOk, TableOk;
    InodeOkAt(fs, x);
  }

  lemma CalledOk(fs: Fs, gs: Fs, ino: nat, op: FileOp)
    requires Core(fs) && Called(fs, gs, ino, op)
    ensures |gs.disk| == |fs.disk| && ino < |gs.disk| && InodeOk(gs, ino) && Faithful(gs.table[ino], gs.disk[ino])
  {
    hide TreeOk, OnlyFile, Truncated, Wrote;
    var a, b := fs.Of(ino), gs.Of(ino);
    InodeOkAt(fs, ino);
    StepRoles(a, b, ino, op);
  }

  // ----- what a change of state means

  /** The file has the same size, the same bytes and no pointer less, though other fields may differ. */
  ghost predicate Alike(fs: Fs, gs: Fs, x: nat)
    requires x in fs.table || x < |fs.disk|
    requires x in gs.table || x < |gs.disk|
  {
    && fs.InodeOf(x).Shape() && gs.InodeOf(x).Shape()
    && gs.InodeOf(x).size == fs.InodeOf(x).size
    && (forall s | ValidSlot(s) && fs.Of(x).At(s) != 0 :: gs.Of(x).At(s) == fs.Of(x).At(s))
    && DataOf(gs.Of(x)) == DataOf(fs.Of(x))
  }

  lemma UntouchedAlike(fs: Fs, gs: Fs, x: nat)
    requires x in fs.table || x < |fs.disk|
    requires x in gs.table || x < |gs.disk|
    requires Untouched(fs, gs, x)
    ensures Alike(fs, gs, x) && gs.InodeOf(x).linkcount == fs.InodeOf(x).linkcount
  {
    hide TreeOk;
  }

  lemma SameDense(a: Snap, b: Snap, end: nat)
    requires a.inode.Shape() && b.inode.Shape() && Dense(a, end)
    requires forall s | ValidSlot(s) :: a.At(s) != 0 ==> b.At(s) != 0
    ensures Dense(b, end)
  {
    forall fb: nat | fb * BLOCKSIZE < end
      ensures BlockOf(ImageOf(b.disk), b.inode, fb) != 0
    {
      assert BlockOf(ImageOf(a.disk), a.inode, fb) != 0;
    }
  }

  lemma SameDir(fs: Fs, gs: Fs)
    requires Core(fs) && Core(gs) && DirOk(fs) && EntriesOk(gs, Dir(fs))
    requires ROOT_LOCATION < |fs.disk| && ROOT_LOCATION < |gs.disk| && Alike(fs, gs, ROOT_LOCATION)
    ensures DirOk(gs) && Dir(gs) == Dir(fs)
  {
    hide Core, Ptr, Dense, EntriesOk;
    SameDense(fs.Of(ROOT_LOCATION), gs.Of(ROOT_LOCATION), fs.InodeOf(ROOT_LOCATION).size);
  }

  lemma RootOk(fs: Fs)
    requires Core(fs)
    ensures fs.IsInode(ROOT_LOCATION) && 0 < ROOT_LOCATION < |fs.disk| && InodeOk(fs, ROOT_LOCATION) && !fs.IsInode(0)
    ensures forall x: nat | fs.IsInode(x) :: x < |fs.disk|
  {
  }

  lemma SameLinks(fs: Fs, gs: Fs, ino0: nat, d: int)
    requires Core(fs) && Core(gs) && LinkedBut(fs, ino0, d) && Dir(gs) == Dir(fs)
    requires forall x: nat :: gs.IsInode(x) <==> fs.IsInode(x)
    requires forall x: nat | fs.IsInode(x) && x < |fs.disk| && x < |gs.disk| ::
               gs.InodeOf(x).linkcount == fs.InodeOf(x).linkcount
    ensures LinkedBut(gs, ino0, d)
  {
    hide TableOk, InodeOk, Dir, Links;
    forall ino | gs.IsInode(ino)
      ensures InodeOk(gs, ino)
      ensures gs.InodeOf(ino).linkcount + (if ino == ino0 then d else 0)
              == Links(Dir(gs), ino) + (if ino == ROOT_LOCATION then 1 else 0)
    {
      assert fs.IsInode(ino);
    }
  }

  lemma FilesAt(fs: Fs, x: nat)
    requires Core(fs)
    ensures x in FileView(fs) <==> fs.IsInode(x) && x != ROOT_LOCATION
    ensures x in FileView(fs) ==> x < |fs.disk| && fs.InodeOf(x).Shape() && FileView(fs)[x] == DataOf(fs.Of(x))
  {
    hide TableOk, Contents, TailZero;
  }

  /** A change that leaves every file but perhaps `ino` alone keeps the directory and the view of the others. */
  lemma ViewKept(fs: Fs, gs: Fs, ino: nat)
    requires Core(fs) && DirOk(fs) && Core(gs) && ino != ROOT_LOCATION
    requires forall x: nat :: gs.IsInode(x) <==> fs.IsInode(x)
    requires forall x: nat | fs.IsInode(x) && x < |fs.disk| && x < |gs.disk| && x != ino :: Alike(fs, gs, x)
    ensures DirOk(gs) && Dir(gs) == Dir(fs) && FileView(gs).Keys == FileView(fs).Keys
    ensures forall x | x in FileView(fs) && x != ino :: FileView(gs)[x] == FileView(fs)[x]
    ensures ino in FileView(fs) ==>
              ino < |gs.disk| && gs.InodeOf(ino).Shape()
              && FileView(gs)[ino] == DataOf(gs.Of(ino))
  {
    hide Core, Dir, FileView, DirOk, Contents, TailZero, Ptr, Alike;
    RootOk(fs);
    RootOk(gs);
    KeptEntries(fs, gs);
    SameDir(fs, gs);
    FilesKept(fs, gs, ino);
  }

  /** If it also leaves the link counts alone, it keeps all that holds between calls. */
  lemma FsKept(fs: Fs, gs: Fs, ino: nat, ino0: nat, d: int)
    requires FsOkBut(fs, ino0, d) && Core(gs) && KeptOk(gs) && BootKept(fs, gs) && ino != ROOT_LOCATION
    requires forall x: nat :: gs.IsInode(x) <==> fs.IsInode(x)
    requires forall x: nat | fs.IsInode(x) && x < |fs.disk| && x < |gs.disk| && x != ino :: Alike(fs, gs, x)
    requires forall x: nat | fs.IsInode(x) && x < |fs.disk| && x < |gs.disk| ::
               gs.InodeOf(x).linkcount == fs.InodeOf(x).linkcount
    ensures FsOkBut(gs, ino0, d) && Dir(gs) == Dir(fs) && FileView(gs).Keys == FileView(fs).Keys
    ensures forall x | x in FileView(fs) && x != ino :: FileView(gs)[x] == FileView(fs)[x]
    ensures ino in FileView(fs) ==>
              ino < |gs.disk| && gs.InodeOf(ino).Shape()
              && FileView(gs)[ino] == DataOf(gs.Of(ino))
  {
    hide Core, Dir, FileView, DirOk, LinkedBut, Contents, TailZero, KeptOk, Ptr, Alike, BootOk, BootKept;
    CoreBoot(fs, gs);
    ViewKept(fs, gs, ino);
    SameLinks(fs, gs, ino0, d);
  }

  lemma CoreBoot(fs: Fs, gs: Fs)
    requires Core(fs) && BootOk(fs) && BootKept(fs, gs)
    ensures BootOk(gs)
  {
    hide InodesOk, TableOk, BootOk, BootKept;
    BootStaysOk(fs, gs);
  }

  lemma FilesKept(fs: Fs, gs: Fs, ino: nat)
    requires Core(fs) && Core(gs)
    requires forall x: nat :: gs.IsInode(x) <==> fs.IsInode(x)
    requires forall x: nat | fs.IsInode(x) && x < |fs.disk| && x < |gs.disk| :: x != ino ==> Alike(fs, gs, x)
    ensures FileView(gs).Keys == FileView(fs).Keys
    ensures forall x | x in FileView(fs) && x != ino :: FileView(gs)[x] == FileView(fs)[x]
    ensures ino in FileView(fs) ==>
              ino < |gs.disk| && gs.InodeOf(ino).Shape()
              && FileView(gs)[ino] == DataOf(gs.Of(ino))
  {
    hide Core, FileView, Contents, TailZero, Ptr;
    RootOk(fs);
    forall x: nat
      ensures x in FileView(gs) <==> x in FileView(fs)
      ensures x in FileView(fs) && x != ino ==> FileView(gs)[x] == FileView(fs)[x]
      ensures x in FileView(fs) && x == ino ==>
                x < |gs.disk| && gs.InodeOf(x).Shape()
                && FileView(gs)[x] == DataOf(gs.Of(x))
    {
      FilesAt(fs, x);
      FilesAt(gs, x);
    }
  }

  lemma KeptEntries(fs: Fs, gs: Fs)
    requires Core(fs) && DirOk(fs) && forall x: nat :: fs.IsInode(x) ==> gs.IsInode(x)
    ensures EntriesOk(gs, Dir(fs))
  {
    hide Core, Dir;
  }

  // ----- the block of an inode is written

  /** `gs` is `fs` with one inode block overwritten. */
  lemma InodeBlockWritten(fs: Fs, gs: Fs, ino: nat, x: nat)
    requires Core(fs) && fs.IsInode(ino) && fs.IsInode(x)
    requires ino < |fs.disk| && |gs.disk| == |fs.disk| && gs.disk == fs.disk[ino := gs.disk[ino]]
             && gs.owner == fs.owner
    requires x < |fs.disk| && gs.InodeOf(x).Shape() && SamePointers(fs.InodeOf(x), gs.InodeOf(x))
    requires gs.InodeOf(x).size == fs.InodeOf(x).size
    ensures Alike(fs, gs, x) && gs.Of(x).Ok(x)
  {
    hide TableOk, InodesOk, FileByte;
    InodeOkAt(fs, x);
    var w, w' := ImageOf(fs.disk), ImageOf(gs.disk);
    ImageUpdate(fs.disk, ino, gs.disk[ino]);
    FrameTree(w, w', fs.owner, gs.owner, x, fs.InodeOf(x));
    SameTree(w', gs.owner, x, fs.InodeOf(x), gs.InodeOf(x));
    forall i: nat
      ensures ByteAt(gs.Of(x), i) == ByteAt(fs.Of(x), i)
    {
      SameByte(fs, gs, ino, x, i);
    }
  }

  lemma SameByte(fs: Fs, gs: Fs, ino: nat, x: nat, i: nat)
    requires x < |fs.disk| && fs.Of(x).Ok(x) && fs.IsInode(ino)
    requires ino < |fs.disk| && |gs.disk| == |fs.disk| && gs.disk == fs.disk[ino := gs.disk[ino]]
    requires gs.InodeOf(x).Shape()
    requires forall s | ValidSlot(s) :: gs.Of(x).At(s) == fs.Of(x).At(s)
    ensures ByteAt(gs.Of(x), i) == ByteAt(fs.Of(x), i)
  {
    var p := PlaceOf(i / BLOCKSIZE);
    if p.At? && fs.Of(x).At(p.slot) != 0 {
      SlotInVolume(fs.Of(x), x, p.slot);
    }
  }
}
