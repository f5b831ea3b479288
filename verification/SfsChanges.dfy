/** The kinds of change that the calls on a mounted file system are made of, each with what it keeps. */
module SfsChanges {
  import opened SfsLayout
  import opened SfsTree
  import opened SfsMap
  import opened SfsVolume
  import opened SfsIo
  import opened SfsTruncate
  import opened SfsFile
  import opened SfsRuns
  import opened SfsDirent
  import opened SfsState
  import opened UioModel

  // ----- a call on a file

  lemma CallAlike(fs: Fs, gs: Fs, ino: nat, op: FileOp)
    requires Core(fs) && Called(fs, gs, ino, op) && forall b | b in gs.owner :: b < |gs.disk|
    ensures Core(gs) && forall x: nat :: gs.IsInode(x) <==> fs.IsInode(x)
    ensures forall x: nat | fs.IsInode(x) && x < |fs.disk| && x < |gs.disk| ::
              gs.InodeOf(x).linkcount == fs.InodeOf(x).linkcount && (x != ino ==> Alike(fs, gs, x))
    ensures KeptOk(fs) ==> KeptOk(gs)
    ensures Refs(gs) == Refs(fs) && BootKept(fs, gs)
  {
    hide Core, Untouched, Alike, FileStep, InodeOk, BootKept;
    CallBoot(fs, gs, ino, op);
    CallKeeps(fs, gs, ino, op);
    RootOk(fs);
    RootOk(gs);
    forall x: nat | fs.IsInode(x) && x < |fs.disk| && x < |gs.disk|
      ensures gs.InodeOf(x).linkcount == fs.InodeOf(x).linkcount && (x != ino ==> Alike(fs, gs, x))
    {
      if x != ino {
        UntouchedAlike(fs, gs, x);
      }
    }
    if KeptOk(fs) {
      SameKept(fs, gs);
    }
  }

  lemma SameKept(fs: Fs, gs: Fs)
    requires Core(fs) && Core(gs) && KeptOk(fs) && gs.table.Keys == fs.table.Keys
    requires forall x: nat :: gs.IsInode(x) <==> fs.IsInode(x)
    requires forall x: nat | fs.IsInode(x) && x < |fs.disk| && x < |gs.disk| ::
               gs.InodeOf(x).linkcount == fs.InodeOf(x).linkcount
    ensures KeptOk(gs)
  {
    hide Core, InodeOk;
    forall x: nat | gs.IsInode(x) && x !in gs.table
      ensures x < |gs.disk| && InodeOk(gs, x) && gs.InodeOf(x).linkcount > 0
    {
      RootOk(fs);
      RootOk(gs);
      InodeOkAt(gs, x);
      assert fs.IsInode(x);
    }
  }

  /** A read, write or truncation of a file other than the directory changes the view of that file alone. */
  lemma CallFs(fs: Fs, gs: Fs, ino: nat, op: FileOp, ino0: nat, d: int)
    requires FsOkBut(fs, ino0, d) && Called(fs, gs, ino, op) && ino != ROOT_LOCATION
    requires forall b | b in gs.owner :: b < |gs.disk|
    ensures FsOkBut(gs, ino0, d) && Dir(gs) == Dir(fs) && Refs(gs) == Refs(fs)
    ensures ino in FileView(fs) && ino < |gs.disk| && gs.InodeOf(ino).Shape()
    ensures FileView(gs) == FileView(fs)[ino := DataOf(gs.Of(ino))]
  {
    hide Core, Dir, FileView, DirOk, LinkedBut, KeptOk, FileStep, Alike, BootOk, BootKept;
    CallAlike(fs, gs, ino, op);
    FsKept(fs, gs, ino, ino0, d);
    TableInode(fs, ino);
    FilesAt(fs, ino);
  }

  lemma TableInode(fs: Fs, ino: nat)
    requires Core(fs) && ino in fs.table
    ensures fs.IsInode(ino) && fs.table[ino].refcount > 0 && ino < |fs.disk|
    ensures Faithful(fs.table[ino], fs.disk[ino]) && InodeOk(fs, ino)
  {
  }

  // ----- the directory file is written

  /** A write that starts no later than the end of the file. */
  lemma WriteInside(a: Snap, b: Snap, off: nat, data: seq<byte>)
    requires a.inode.Shape() && b.inode.Shape() && off <= a.inode.size
    requires Wrote(a, b, off, data) && b.inode.size == Max(a.inode.size, off + |data|)
    ensures Contents(b) == WriteAt(Contents(a), off, data)
  {
    var f, g := Contents(b), WriteAt(Contents(a), off, data);
    assert |f| == |g|;
    forall i: nat | i < |f|
      ensures f[i] == g[i]
    {
      assert f[i] == ByteAt(b, i);
      if i < a.inode.size {
        assert Contents(a)[i] == ByteAt(a, i);
      }
    }
  }

  /** No file call takes away a pointer, unless it truncates. */
  lemma PointersStay(a: Snap, b: Snap, ino: nat, s: Slot)
    requires a.Ok(ino) && b.Ok(ino) && GrowsOwners(a, b, ino) && ValidSlot(s) && a.At(s) != 0
    ensures b.At(s) == a.At(s)
  {
    SlotInVolume(a, ino, s);
  }

  /** A byte that is not zero lies in a block that is there. */
  lemma NonzeroMapped(b: Snap, i: nat)
    requires b.inode.Shape() && ByteAt(b, i) != 0
    ensures BlockOf(ImageOf(b.disk), b.inode, i / BLOCKSIZE) != 0
  {
  }

  /** After an entry was written, the directory still has all its blocks. */
  lemma DenseAfter(a: Snap, b: Snap, ino: nat, k: nat, data: seq<byte>)
    requires a.Ok(ino) && b.Ok(ino) && GrowsOwners(a, b, ino) && Dense(a, a.inode.size) && a.inode.size % DIRENT == 0
    requires |data| == DIRENT && Wrote(a, b, k * DIRENT, data) && k <= a.inode.size / DIRENT
    requires b.inode.size == Max(a.inode.size, (k + 1) * DIRENT)
    requires k == a.inode.size / DIRENT ==> exists j: nat | j < DIRENT :: data[j] != 0
    ensures Dense(b, b.inode.size)
  {
    hide TreeOk, Ptr, IndexesOf;
    forall fb: nat | fb * BLOCKSIZE < b.inode.size
      ensures BlockOf(ImageOf(b.disk), b.inode, fb) != 0
    {
      if fb * BLOCKSIZE < a.inode.size {
        assert BlockOf(ImageOf(a.disk), a.inode, fb) != 0;
        PointersStay(a, b, ino, PlaceOf(fb).slot);
      } else {
        var j: nat :| j < DIRENT && data[j] != 0;
        assert ByteAt(b, k * DIRENT + j) == data[j];
        NonzeroMapped(b, k * DIRENT + j);
        assert (k * DIRENT + j) / BLOCKSIZE == fb;
      }
    }
  }

  /** An entry in use has a byte that is not zero. */
  lemma LiveNonzero(b: seq<byte>)
    requires |b| == DIRENT && DecodeEntry(b).Live()
    ensures exists j: nat | j < DIRENT :: b[j] != 0
  {
    assert b[0] != 0 || b[1] != 0 || b[2] != 0 || b[3] != 0;
  }

  /** All of a directory lies below the first block that the index arithmetic cannot reach. */
  lemma DenseBound(a: Snap, end: nat)
    requires Dense(a, end)
    ensures end <= FAULTBLOCK * BLOCKSIZE
  {
    PlaceExists(FAULTBLOCK);
    assert BlockOf(ImageOf(a.disk), a.inode, FAULTBLOCK) == 0;
  }

  /** Entry `k` of the directory was written and holds `e` now. */
  ghost predicate DirPut(fs: Fs, gs: Fs, k: nat, e: Entry)
    requires Core(fs)
  {
    && k <= |Dir(fs)|
    && Core(gs) && DirOk(gs) && Dir(gs) == PutEntry(Dir(fs), k, e)
    && FileView(gs) == FileView(fs) && Refs(gs) == Refs(fs)
    && (forall x: nat :: gs.IsInode(x) <==> fs.IsInode(x))
    && (forall x: nat | fs.IsInode(x) && x < |fs.disk| && x < |gs.disk| ::
          gs.InodeOf(x).linkcount == fs.InodeOf(x).linkcount)
    && (KeptOk(fs) ==> KeptOk(gs)) && (BootOk(fs) ==> BootOk(gs))
  }

  lemma DirWritten(fs: Fs, gs: Fs, k: nat, b: seq<byte>)
    requires Core(fs) && DirOk(fs) && |b| == DIRENT
    requires Called(fs, gs, ROOT_LOCATION, Write(k * DIRENT, b, DIRENT, true))
    requires forall x | x in gs.owner :: x < |gs.disk|
    requires k <= |Dir(fs)| && EntriesOk(fs, PutEntry(Dir(fs), k, DecodeEntry(b)))
    requires DecodeEntry(b).Live() || k < |Dir(fs)|
    ensures DirPut(fs, gs, k, DecodeEntry(b))
  {
    hide Core, FileStep, Alike, KeptOk, FileView, DecodeEntry, BootOk, BootKept;
    CallAlike(fs, gs, ROOT_LOCATION, Write(k * DIRENT, b, DIRENT, true));
    if BootOk(fs) {
      CoreBoot(fs, gs);
    }
    RootOk(fs);
    RootOk(gs);
    DirBytes(fs, gs, k, b);
    RootWritten(fs, gs);
  }

  /** A write to the directory that failed has moved nothing, and leaves it as it was. */
  lemma DirUnwritten(fs: Fs, gs: Fs, k: nat, b: seq<byte>, ino0: nat, d: int)
    requires FsOkBut(fs, ino0, d) && |b| == DIRENT && k <= |Dir(fs)|
    requires Called(fs, gs, ROOT_LOCATION, Write(k * DIRENT, b, 0, false))
    requires forall x | x in gs.owner :: x < |gs.disk|
    ensures FsOkBut(gs, ino0, d) && Dir(gs) == Dir(fs) && ViewOf(gs) == ViewOf(fs)
  {
    hide Core, DirOk, Dir, FileStep, Alike, KeptOk, FileView, LinkedBut, BootOk, BootKept;
    CallAlike(fs, gs, ROOT_LOCATION, Write(k * DIRENT, b, 0, false));
    RootOk(fs);
    RootOk(gs);
    DirSize(fs);
    RootUnwritten(fs, gs, k, b);
    FsKept(fs, gs, 0, ino0, d);
    FilesAt(fs, 0);
  }

  lemma DirSize(fs: Fs)
    requires Core(fs) && DirOk(fs)
    ensures ROOT_LOCATION < |fs.disk| && fs.InodeOf(ROOT_LOCATION).size == |Dir(fs)| * DIRENT
  {
    hide InodesOk, TableOk, Dense;
    RootOk(fs);
  }

  lemma RootUnwritten(fs: Fs, gs: Fs, k: nat, b: seq<byte>)
    requires Core(fs) && ROOT_LOCATION < |fs.disk| && ROOT_LOCATION < |gs.disk|
    requires Called(fs, gs, ROOT_LOCATION, Write(k * DIRENT, b, 0, false))
    requires k * DIRENT <= fs.InodeOf(ROOT_LOCATION).size
    ensures Alike(fs, gs, ROOT_LOCATION)
  {
    hide Core, TreeOk, Ptr;
    var a, c := fs.Of(ROOT_LOCATION), gs.Of(ROOT_LOCATION);
    WriteInside(a, c, k * DIRENT, b[..0]);
    assert WriteAt(Contents(a), k * DIRENT, []) == Contents(a);
    forall s | ValidSlot(s) && a.At(s) != 0
      ensures c.At(s) == a.At(s)
    {
      PointersStay(a, c, ROOT_LOCATION, s);
    }
  }

  lemma DirBytes(fs: Fs, gs: Fs, k: nat, b: seq<byte>)
    requires Core(fs) && DirOk(fs) && Core(gs) && |b| == DIRENT && ROOT_LOCATION < |fs.disk|
             && ROOT_LOCATION < |gs.disk|
    requires Called(fs, gs, ROOT_LOCATION, Write(k * DIRENT, b, DIRENT, true))
    requires k <= |Dir(fs)| && EntriesOk(fs, PutEntry(Dir(fs), k, DecodeEntry(b)))
    requires forall x: nat :: gs.IsInode(x) <==> fs.IsInode(x)
    requires DecodeEntry(b).Live() || k < |Dir(fs)|
    ensures DirOk(gs) && Dir(gs) == PutEntry(Dir(fs), k, DecodeEntry(b))
  {
    hide Core, TreeOk, Dense, DecodeEntry, Wrote, WriteAt, Ptr, PutEntry, Unique;
    var a, c := fs.Of(ROOT_LOCATION), gs.Of(ROOT_LOCATION);
    assert b[..DIRENT] == b;
    WriteInside(a, c, k * DIRENT, b);
    WriteEntry(Contents(a), k, b);
    if k == a.inode.size / DIRENT {
      LiveNonzero(b);
    }
    DenseAfter(a, c, ROOT_LOCATION, k, b);
  }

  lemma RootWritten(fs: Fs, gs: Fs)
    requires Core(fs) && Core(gs)
    requires forall x: nat :: gs.IsInode(x) <==> fs.IsInode(x)
    requires forall x: nat | fs.IsInode(x) && x < |fs.disk| && x < |gs.disk| :: x != ROOT_LOCATION ==> Alike(fs, gs, x)
    ensures FileView(gs) == FileView(fs)
  {
    hide Core, FileView, Contents, TailZero, Ptr;
    FilesKept(fs, gs, ROOT_LOCATION);
    FilesAt(fs, ROOT_LOCATION);
  }

  // ----- what writing an entry does to the link counts

  /** A new name for inode `e.ino`: one link more than its count says. */
  lemma PutLinked(fs: Fs, gs: Fs, k: nat, e: Entry)
    requires FsOk(fs) && DirPut(fs, gs, k, e) && e.Live() && (k < |Dir(fs)| ==> !Dir(fs)[k].Live())
    ensures FsOkBut(gs, e.ino, 1)
  {
    hide Core, DirOk, Dir, KeptOk, FileView, InodeOk, Links, BootOk;
    RootOk(fs);
    RootOk(gs);
    forall ino: nat | gs.IsInode(ino)
      ensures ino < |gs.disk| && InodeOk(gs, ino)
      ensures gs.InodeOf(ino).linkcount + (if ino == e.ino then 1 else 0)
              == Links(Dir(gs), ino) + (if ino == ROOT_LOCATION then 1 else 0)
    {
      InodeOkAt(gs, ino);
      PutLinks(Dir(fs), k, e, ino);
      assert fs.IsInode(ino);
    }
  }

  /** A name of inode `old` is gone: one link less than its count says. */
  lemma ClearLinked(fs: Fs, gs: Fs, k: nat, e: Entry)
    requires FsOk(fs) && DirPut(fs, gs, k, e) && !e.Live() && k < |Dir(fs)| && Dir(fs)[k].Live()
    ensures FsOkBut(gs, Dir(fs)[k].ino, -1)
  {
    hide Core, DirOk, Dir, KeptOk, FileView, InodeOk, Links, BootOk;
    RootOk(fs);
    RootOk(gs);
    var gone := Dir(fs)[k].ino;
    forall ino: nat | gs.IsInode(ino)
      ensures ino < |gs.disk| && InodeOk(gs, ino)
      ensures gs.InodeOf(ino).linkcount + (if ino == gone then -1 else 0)
              == Links(Dir(gs), ino) + (if ino == ROOT_LOCATION then 1 else 0)
    {
      InodeOkAt(gs, ino);
      PutLinks(Dir(fs), k, e, ino);
      assert fs.IsInode(ino);
    }
  }

  // ----- changes of vnodes

  /** Nothing on disk changed; vnode `ino` is new, or differs from before. */
  ghost predicate Retouched(fs: Fs, gs: Fs, ino: nat) {
    && gs.disk == fs.disk && gs.owner == fs.owner && gs.freemap == fs.freemap && ino in gs.table
    && gs.table == fs.table[ino := gs.table[ino]]
  }

  lemma RetouchedCore(fs: Fs, gs: Fs, ino: nat)
    requires Core(fs) && Retouched(fs, gs, ino) && fs.IsInode(ino) && ino < |fs.disk|
    requires var n, m := fs.InodeOf(ino), gs.InodeOf(ino);
             m.Shape() && SamePointers(n, m) && m.size == n.size && m.typ == n.typ && InRange(m)
    requires gs.table[ino].refcount > 0 && Faithful(gs.table[ino], fs.disk[ino])
    ensures Core(gs) && forall x: nat :: gs.IsInode(x) <==> fs.IsInode(x)
    ensures forall x: nat | fs.IsInode(x) && x < |fs.disk| && x < |gs.disk| :: Alike(fs, gs, x)
  {
    hide TreeOk, Faithful, InRange, Ptr, Alike, InodeOk;
    forall x: nat | fs.IsInode(x) && x < |fs.disk|
      ensures Alike(fs, gs, x) && InodeOk(gs, x)
    {
      RetouchedAt(fs, gs, ino, x);
    }
  }

  lemma RetouchedAt(fs: Fs, gs: Fs, ino: nat, x: nat)
    requires Core(fs) && Retouched(fs, gs, ino) && fs.IsInode(ino) && ino < |fs.disk| && fs.IsInode(x) && x < |fs.disk|
    requires var n, m := fs.InodeOf(ino), gs.InodeOf(ino);
             m.Shape() && SamePointers(n, m) && m.size == n.size && m.typ == n.typ && InRange(m)
    ensures Alike(fs, gs, x) && InodeOk(gs, x)
  {
    hide TreeOk, TableOk, InRange, Ptr, Contents, TailZero;
    InodeOkAt(fs, x);
    SameTree(ImageOf(fs.disk), fs.owner, x, fs.InodeOf(x), gs.InodeOf(x));
    SameByteContents(fs.Of(x), gs.Of(x));
  }

  lemma SameByteContents(a: Snap, b: Snap)
    requires a.inode.Shape() && b.inode.Shape() && b.disk == a.disk && b.inode.size == a.inode.size
    requires forall s | ValidSlot(s) :: a.At(s) == b.At(s)
    ensures DataOf(a) == DataOf(b)
  {
    forall i: nat
      ensures ByteAt(b, i) == ByteAt(a, i)
    {
    }
    SameData(a, b);
  }

  lemma SameBoot(fs: Fs, gs: Fs)
    requires gs.disk == fs.disk && gs.owner == fs.owner && gs.freemap == fs.freemap
    ensures BootKept(fs, gs)
  {
  }

  /** The link count of `ino` catches up with the directory. */
  lemma Relinked(fs: Fs, gs: Fs, ino: nat, d: int)
    requires FsOkBut(fs, ino, d) && ino in fs.table && Retouched(fs, gs, ino)
    requires 0 <= fs.table[ino].inode.linkcount + d < HALF_LIMIT
    requires gs.table[ino] == Vnode(fs.table[ino].inode.(linkcount := fs.table[ino].inode.linkcount + d), true,
                                    fs.table[ino].refcount)
    ensures FsOk(gs) && Dir(gs) == Dir(fs) && FileView(gs) == FileView(fs) && Refs(gs) == Refs(fs)
  {
    hide Core, Dir, DirOk, FileView, Alike, InodeOk, Links, BootOk, BootKept;
    SameBoot(fs, gs);
    CoreBoot(fs, gs);
    TableInode(fs, ino);
    InodeRange(fs, ino);
    RootOk(fs);
    RetouchedCore(fs, gs, ino);
    RootOk(gs);
    ViewKept(fs, gs, 0);
    FilesAt(fs, 0);
    forall x: nat | gs.IsInode(x)
      ensures x < |gs.disk| && InodeOk(gs, x)
      ensures gs.InodeOf(x).linkcount == Links(Dir(gs), x) + (if x == ROOT_LOCATION then 1 else 0)
    {
      InodeOkAt(gs, x);
      assert fs.IsInode(x);
    }
    RelinkedKept(fs, gs, ino);
  }

  lemma RelinkedKept(fs: Fs, gs: Fs, ino: nat)
    requires Core(fs) && Core(gs) && KeptOk(fs) && Retouched(fs, gs, ino) && ino in fs.table
    requires forall x: nat :: gs.IsInode(x) <==> fs.IsInode(x)
    ensures KeptOk(gs)
  {
    hide Core, InodeOk;
    forall x: nat | gs.IsInode(x) && x !in gs.table
      ensures x < |gs.disk| && InodeOk(gs, x) && gs.InodeOf(x).linkcount > 0
    {
      RootOk(fs);
      InodeOkAt(gs, x);
      assert fs.IsInode(x);
    }
  }

  /** A vnode is loaded, or the number of references to it changes. */
  lemma Referenced(fs: Fs, gs: Fs, ino: nat, refcount: nat, ino0: nat, d: int)
    requires FsOkBut(fs, ino0, d) && fs.IsInode(ino) && ino < |fs.disk| && Retouched(fs, gs, ino) && refcount > 0
    requires gs.table[ino] == if ino in fs.table then fs.table[ino].(refcount := refcount)
                              else Vnode(DecodeInode(fs.disk[ino]), false, refcount)
    ensures FsOkBut(gs, ino0, d) && Dir(gs) == Dir(fs) && FileView(gs) == FileView(fs)
    ensures Refs(gs) == Refs(fs)[ino := refcount]
  {
    hide Core, Dir, DirOk, FileView, Alike, InodeOk, Links, LinkedBut, BootOk, BootKept;
    SameBoot(fs, gs);
    InodeOkAt(fs, ino);
    RootOk(fs);
    if ino in fs.table {
      TableInode(fs, ino);
    }
    InodeRange(fs, ino);
    RetouchedCore(fs, gs, ino);
    LoadedKept(fs, gs, ino);
    FsKept(fs, gs, 0, ino0, d);
    FilesAt(fs, 0);
  }

  lemma InodeRange(fs: Fs, ino: nat)
    requires Core(fs) && fs.IsInode(ino) && ino < |fs.disk|
    ensures fs.InodeOf(ino).Shape() && InRange(fs.InodeOf(ino))
  {
    InodeOkAt(fs, ino);
  }

  lemma LoadedKept(fs: Fs, gs: Fs, ino: nat)
    requires Core(fs) && Core(gs) && KeptOk(fs) && Retouched(fs, gs, ino)
    requires forall x: nat :: gs.IsInode(x) <==> fs.IsInode(x)
    ensures KeptOk(gs)
  {
    hide Core, InodeOk;
    forall x: nat | gs.IsInode(x) && x !in gs.table
      ensures x < |gs.disk| && InodeOk(gs, x) && gs.InodeOf(x).linkcount > 0
    {
      RootOk(fs);
      InodeOkAt(gs, x);
      assert fs.IsInode(x);
    }
  }

  // ----- an inode is written to disk

  /** sfs_sync_inode on vnode `ino`. */
  ghost predicate Synced(fs: Fs, gs: Fs, ino: nat) {
    && ino in fs.table && ino in gs.table && ino < |fs.disk| && |gs.disk| == |fs.disk|
    && gs.owner == fs.owner && gs.freemap == fs.freemap
    && gs.disk == fs.disk[ino := gs.disk[ino]]
    && gs.table == fs.table[ino := fs.table[ino].(dirty := false)]
    && (if fs.table[ino].dirty then DecodeInode(gs.disk[ino]) == fs.table[ino].inode else gs.disk == fs.disk)
  }

  lemma SyncedCore(fs: Fs, gs: Fs, ino: nat)
    requires Core(fs) && Synced(fs, gs, ino)
    ensures Core(gs) && forall x: nat :: gs.IsInode(x) <==> fs.IsInode(x)
    ensures forall x: nat | fs.IsInode(x) && x < |fs.disk| && x < |gs.disk| ::
              gs.InodeOf(x) == fs.InodeOf(x) && Alike(fs, gs, x)
    ensures Faithful(gs.table[ino], gs.disk[ino]) && !gs.table[ino].dirty
  {
    hide TreeOk, InRange, Ptr, Alike, InodeOk, Contents, TailZero;
    TableInode(fs, ino);
    forall x: nat | fs.IsInode(x) && x < |fs.disk|
      ensures gs.InodeOf(x) == fs.InodeOf(x) && Alike(fs, gs, x) && InodeOk(gs, x)
    {
      SyncedAt(fs, gs, ino, x);
    }
    SyncedTable(fs, gs, ino);
  }

  lemma SyncedTable(fs: Fs, gs: Fs, ino: nat)
    requires Core(fs) && Synced(fs, gs, ino) && RolesOk(gs)
    ensures TableOk(gs)
  {
    hide InodesOk;
    forall x: nat | x in gs.table
      ensures x < |gs.disk| && Faithful(gs.table[x], gs.disk[x])
    {
      TableInode(fs, x);
    }
  }

  lemma SyncedAt(fs: Fs, gs: Fs, ino: nat, x: nat)
    requires Core(fs) && Synced(fs, gs, ino) && fs.IsInode(x) && x < |fs.disk| && fs.IsInode(ino)
    ensures gs.InodeOf(x) == fs.InodeOf(x) && Alike(fs, gs, x) && InodeOk(gs, x)
  {
    hide TreeOk, InRange, Ptr, Alike, Contents, TailZero, TableOk;
    InodeOkAt(fs, x);
    InodeBlockWritten(fs, gs, ino, x);
  }

  lemma SyncedBoot(fs: Fs, gs: Fs, ino: nat)
    requires Core(fs) && Synced(fs, gs, ino)
    ensures BootKept(fs, gs)
  {
    hide Core;
    TableInode(fs, ino);
  }

  lemma SyncedFs(fs: Fs, gs: Fs, ino: nat, ino0: nat, d: int)
    requires FsOkBut(fs, ino0, d) && Synced(fs, gs, ino)
    ensures FsOkBut(gs, ino0, d) && Dir(gs) == Dir(fs) && FileView(gs) == FileView(fs) && Refs(gs) == Refs(fs)
  {
    hide Core, Dir, DirOk, FileView, Alike, InodeOk, Links, LinkedBut, BootOk, BootKept;
    RootOk(fs);
    SyncedBoot(fs, gs, ino);
    SyncedCore(fs, gs, ino);
    RootOk(gs);
    SameKept(fs, gs);
    FsKept(fs, gs, 0, ino0, d);
    FilesAt(fs, 0);
  }

  // ----- a vnode leaves the table

  lemma UnloadedFs(fs: Fs, gs: Fs, ino: nat, ino0: nat, d: int)
    requires FsOkBut(fs, ino0, d) && ino in fs.table && !fs.table[ino].dirty && fs.table[ino].inode.linkcount > 0
    requires gs == fs.(table := fs.table - {ino})
    ensures FsOkBut(gs, ino0, d) && Dir(gs) == Dir(fs) && FileView(gs) == FileView(fs)
    ensures Refs(gs) == Refs(fs) - {ino}
  {
    hide Core, Dir, DirOk, FileView, Alike, InodeOk, Links, LinkedBut, BootOk, BootKept;
    RootOk(fs);
    SameBoot(fs, gs);
    UnloadedCore(fs, gs, ino);
    RootOk(gs);
    forall x: nat | gs.IsInode(x) && x !in gs.table
      ensures x < |gs.disk| && InodeOk(gs, x) && gs.InodeOf(x).linkcount > 0
    {
      InodeOkAt(gs, x);
      assert fs.IsInode(x);
    }
    FsKept(fs, gs, 0, ino0, d);
    FilesAt(fs, 0);
  }

  lemma UnloadedCore(fs: Fs, gs: Fs, ino: nat)
    requires Core(fs) && ino in fs.table && !fs.table[ino].dirty
    requires gs == fs.(table := fs.table - {ino})
    ensures Core(gs) && forall x: nat :: gs.IsInode(x) <==> fs.IsInode(x)
    ensures forall x: nat | fs.IsInode(x) && x < |fs.disk| && x < |gs.disk| ::
              gs.InodeOf(x).linkcount == fs.InodeOf(x).linkcount && Alike(fs, gs, x)
  {
    hide TreeOk, Ptr, Alike, InodeOk, Contents, TailZero;
    TableInode(fs, ino);
    forall x: nat | fs.IsInode(x) && x < |fs.disk|
      ensures Alike(fs, gs, x) && InodeOk(gs, x) && gs.InodeOf(x).linkcount == fs.InodeOf(x).linkcount
    {
      UnloadedAt(fs, gs, ino, x);
    }
  }

  lemma UnloadedAt(fs: Fs, gs: Fs, ino: nat, x: nat)
    requires Core(fs) && ino in fs.table && !fs.table[ino].dirty && fs.IsInode(x) && x < |fs.disk|
    requires gs == fs.(table := fs.table - {ino}) && ino < |fs.disk| && Faithful(fs.table[ino], fs.disk[ino])
    ensures Alike(fs, gs, x) && InodeOk(gs, x) && gs.InodeOf(x).linkcount == fs.InodeOf(x).linkcount
  {
    hide TreeOk, Ptr, TableOk, Contents, TailZero;
    InodeOkAt(fs, x);
    DecodedInodeFits(fs.disk[x]);
    SameTree(ImageOf(fs.disk), fs.owner, x, fs.InodeOf(x), gs.InodeOf(x));
    SameByteContents(fs.Of(x), gs.Of(x));
  }

  // ----- inodes come and go

  /** A free block was taken and cleared, with a role that is not that of a file's block. */
  ghost predicate Taken(fs: Fs, gs: Fs, b: nat, role: Role) {
    && 0 < b < |fs.disk| && b !in fs.owner && (role == InodeBlock || role == Orphan)
    && gs.disk == fs.disk[b := ZeroBlock()] && gs.owner == fs.owner[b := role] && MapKept(fs.freemap, gs.freemap)
  }

  lemma TakenAt(fs: Fs, gs: Fs, b: nat, role: Role, x: nat)
    requires Core(fs) && Taken(fs, gs, b, role) && fs.IsInode(x) && x < |fs.disk|
    requires gs.InodeOf(x) == fs.InodeOf(x)
    ensures Alike(fs, gs, x) && InodeOk(gs, x)
  {
    hide TableOk, InodesOk, FileByte, DataOf, InRange;
    InodeOkAt(fs, x);
    ImageUpdate(fs.disk, b, ZeroBlock());
    FrameTree(ImageOf(fs.disk), ImageOf(gs.disk), fs.owner, gs.owner, x, fs.InodeOf(x));
    forall i: nat
      ensures ByteAt(gs.Of(x), i) == ByteAt(fs.Of(x), i)
    {
      var p := PlaceOf(i / BLOCKSIZE);
      if p.At? && fs.Of(x).At(p.slot) != 0 {
        SlotInVolume(fs.Of(x), x, p.slot);
        TakenByte(fs, gs, b, role, x, i);
      } else {
        TakenHole(fs, gs, x, i);
      }
    }
    SameData(fs.Of(x), gs.Of(x));
  }

  lemma TakenByte(fs: Fs, gs: Fs, b: nat, role: Role, x: nat, i: nat)
    requires x < |fs.disk| && x < |gs.disk| && fs.InodeOf(x).Shape() && gs.InodeOf(x).Shape() && Taken(fs, gs, b, role)
    requires forall s | ValidSlot(s) :: gs.Of(x).At(s) == fs.Of(x).At(s)
    requires PlaceOf(i / BLOCKSIZE).At? && fs.Of(x).At(PlaceOf(i / BLOCKSIZE).slot) in fs.owner
    ensures ByteAt(gs.Of(x), i) == ByteAt(fs.Of(x), i)
  {
  }

  lemma TakenHole(fs: Fs, gs: Fs, x: nat, i: nat)
    requires x < |fs.disk| && x < |gs.disk| && fs.InodeOf(x).Shape() && gs.InodeOf(x).Shape()
    requires forall s | ValidSlot(s) :: gs.Of(x).At(s) == fs.Of(x).At(s)
    requires var p := PlaceOf(i / BLOCKSIZE); p.At? ==> fs.Of(x).At(p.slot) == 0
    ensures ByteAt(gs.Of(x), i) == ByteAt(fs.Of(x), i)
  {
  }

  /** The orphan that sfs_makeobj leaves when it runs out of memory: nothing else notices it. */
  lemma OrphanFs(fs: Fs, gs: Fs, b: nat)
    requires FsOk(fs) && Taken(fs, gs, b, Orphan) && gs.table == fs.table
    ensures FsOk(gs) && ViewOf(gs) == ViewOf(fs) && Dir(gs) == Dir(fs)
  {
    hide Core, Dir, DirOk, FileView, Alike, InodeOk, Links, LinkedBut, BootOk, BootKept;
    RootOk(fs);
    TakenBoot(fs, gs, b, Orphan);
    TakenCore(fs, gs, b, Orphan);
    RootOk(gs);
    SameKept(fs, gs);
    FsKept(fs, gs, 0, 0, 0);
    FilesAt(fs, 0);
  }

  lemma TakenBoot(fs: Fs, gs: Fs, b: nat, role: Role)
    requires Taken(fs, gs, b, role)
    ensures BootKept(fs, gs)
  {
  }

  lemma TakenCore(fs: Fs, gs: Fs, b: nat, role: Role)
    requires Core(fs) && Taken(fs, gs, b, role)
    requires gs.table == if role == Orphan then fs.table
                         else fs.table[b := Vnode(FreshInode().(typ := TYPE_FILE), true, 1)]
    ensures Core(gs) && forall x: nat :: gs.IsInode(x) <==> fs.IsInode(x) || (role == InodeBlock && x == b)
    ensures forall x: nat | fs.IsInode(x) && x < |fs.disk| && x < |gs.disk| ::
              gs.InodeOf(x) == fs.InodeOf(x) && Alike(fs, gs, x)
    ensures role == InodeBlock ==> gs.IsInode(b) && InodeOk(gs, b) && DataOf(gs.Of(b)) == FileData([], true)
  {
    hide TreeOk, InRange, Ptr, Alike, InodeOk, Contents, TailZero, Faithful;
    forall x: nat | fs.IsInode(x) && x < |fs.disk|
      ensures gs.InodeOf(x) == fs.InodeOf(x) && Alike(fs, gs, x) && InodeOk(gs, x)
    {
      TakenAt(fs, gs, b, role, x);
    }
    if role == InodeBlock {
      NewInodeOk(fs, gs, b);
    }
    TakenTable(fs, gs, b, role);
  }

  lemma TakenTable(fs: Fs, gs: Fs, b: nat, role: Role)
    requires Core(fs) && Taken(fs, gs, b, role) && RolesOk(gs)
    requires gs.table == if role == Orphan then fs.table
                         else fs.table[b := Vnode(FreshInode().(typ := TYPE_FILE), true, 1)]
    ensures TableOk(gs)
  {
    hide Core, Faithful, FreshInode;
    forall x: nat | x in gs.table
      ensures x < |gs.disk| && gs.IsInode(x) && gs.table[x].refcount > 0 && Faithful(gs.table[x], gs.disk[x])
    {
      if x in fs.table && gs.table[x] == fs.table[x] {
        TableInode(fs, x);
      } else {
        DirtyIsFaithful(gs.table[x], gs.disk[x]);
      }
    }
  }

  lemma DirtyIsFaithful(v: Vnode, b: Block)
    requires v.dirty
    ensures Faithful(v, b)
  {
  }

  /** A new file has no blocks and no bytes. */
  lemma NewInodeOk(fs: Fs, gs: Fs, b: nat)
    requires Core(fs) && Taken(fs, gs, b, InodeBlock) && b != ROOT_LOCATION
    requires gs.table == fs.table[b := Vnode(FreshInode().(typ := TYPE_FILE), true, 1)]
    ensures InodeOk(gs, b) && DataOf(gs.Of(b)) == FileData([], true) && Faithful(gs.table[b], gs.disk[b])
            && gs.IsInode(b)
  {
    hide InodesOk, TableOk;
    var a := gs.Of(b);
    forall s | ValidSlot(s)
      ensures a.At(s) == 0
    {
      EmptyRoot(a, s);
    }
  }

  /** sfs_makeobj on success: a new empty file that has no name yet. */
  lemma NewInodeFs(fs: Fs, gs: Fs, b: nat)
    requires FsOk(fs) && Taken(fs, gs, b, InodeBlock)
    requires gs.table == fs.table[b := Vnode(FreshInode().(typ := TYPE_FILE), true, 1)]
    ensures FsOk(gs) && Dir(gs) == Dir(fs) && b !in fs.table && b !in FileView(fs)
    ensures FileView(gs) == FileView(fs)[b := FileData([], true)] && Refs(gs) == Refs(fs)[b := 1]
  {
    hide Core, Dir, DirOk, FileView, Alike, InodeOk, Links, Contents, TailZero, BootOk, BootKept;
    RootOk(fs);
    TakenBoot(fs, gs, b, InodeBlock);
    CoreBoot(fs, gs);
    TakenCore(fs, gs, b, InodeBlock);
    RootOk(gs);
    FilesAt(fs, b);
    FilesAt(gs, b);
    if b in fs.table {
      TableInode(fs, b);
    }
    KeptEntries(fs, gs);
    SameDir(fs, gs);
    NewInodeLinks(fs, gs, b);
    OtherFiles(fs, gs, b);
  }

  /** The files other than `b` look the same. */
  lemma OtherFiles(fs: Fs, gs: Fs, b: nat)
    requires Core(fs) && Core(gs)
    requires forall x: nat | x != b :: gs.IsInode(x) <==> fs.IsInode(x)
    requires forall x: nat | fs.IsInode(x) && x < |fs.disk| && x < |gs.disk| && x != b :: Alike(fs, gs, x)
    ensures forall x: nat | x != b :: x in FileView(gs) <==> x in FileView(fs)
    ensures forall x: nat | x != b && x in FileView(fs) :: FileView(gs)[x] == FileView(fs)[x]
  {
    hide Core, FileView, Contents, TailZero, Ptr;
    forall x: nat | x != b
      ensures x in FileView(gs) <==> x in FileView(fs)
      ensures x in FileView(fs) ==> FileView(gs)[x] == FileView(fs)[x]
    {
      FilesAt(fs, x);
      FilesAt(gs, x);
    }
  }

  lemma NewInodeLinks(fs: Fs, gs: Fs, b: nat)
    requires FsOk(fs) && Core(gs) && Dir(gs) == Dir(fs) && !fs.IsInode(b) && b in gs.table && b != ROOT_LOCATION
    requires gs.table.Keys == fs.table.Keys + {b} && b < |gs.disk| && gs.InodeOf(b).linkcount == 0
    requires forall x: nat :: gs.IsInode(x) <==> fs.IsInode(x) || x == b
    requires forall x: nat | fs.IsInode(x) && x < |fs.disk| && x < |gs.disk| :: gs.InodeOf(x) == fs.InodeOf(x)
    ensures LinkedBut(gs, 0, 0) && KeptOk(gs)
  {
    hide Core, Dir, DirOk, InodeOk, Links, BootOk;
    RootOk(fs);
    RootOk(gs);
    NoLinks(fs, b);
    forall x: nat | gs.IsInode(x)
      ensures x < |gs.disk| && InodeOk(gs, x)
      ensures gs.InodeOf(x).linkcount == Links(Dir(gs), x) + (if x == ROOT_LOCATION then 1 else 0)
      ensures x in gs.table || gs.InodeOf(x).linkcount > 0
    {
      InodeOkAt(gs, x);
      if x != b {
        assert fs.IsInode(x);
        assert x in fs.table || fs.InodeOf(x).linkcount > 0;
      }
    }
  }

  /** The directory names no inode that does not exist. */
  lemma NoLinks(fs: Fs, b: nat)
    requires Core(fs) && DirOk(fs) && !fs.IsInode(b)
    ensures Links(Dir(fs), b) == 0
  {
    hide Core, Dir, Dense;
    if Links(Dir(fs), b) > 0 {
      var k := LinksFrom(Dir(fs), b);
    }
  }

  // ----- an inode is freed

  /** The owners when file `ino` is gone: what it still had belongs to nobody. */
  function Strip(owner: Owner, ino: nat): (r: Owner) {
    map b | b in owner && b != ino :: if ChargedTo(owner[b], ino) then Orphan else owner[b]
  }

  /** The vnode and the inode of file `ino` are gone. */
  ghost predicate Erased(fs: Fs, gs: Fs, ino: nat) {
    && gs.disk == fs.disk && gs.owner == Strip(fs.owner, ino) && gs.table == fs.table - {ino}
    && MapKept(fs.freemap, gs.freemap)
  }

  lemma ErasedAt(fs: Fs, gs: Fs, ino: nat, x: nat)
    requires Core(fs) && fs.IsInode(ino) && Erased(fs, gs, ino) && fs.IsInode(x) && x < |fs.disk| && x != ino
    ensures gs.IsInode(x) && gs.InodeOf(x) == fs.InodeOf(x) && Alike(fs, gs, x) && InodeOk(gs, x)
  {
    hide TableOk, InodesOk;
    InodeOkAt(fs, x);
    FrameTree(ImageOf(fs.disk), ImageOf(gs.disk), fs.owner, gs.owner, x, fs.InodeOf(x));
    SameByteContents(fs.Of(x), gs.Of(x));
  }

  lemma ErasedCore(fs: Fs, gs: Fs, ino: nat)
    requires Core(fs) && fs.IsInode(ino) && ino != ROOT_LOCATION && Erased(fs, gs, ino)
    ensures Core(gs) && forall x: nat :: gs.IsInode(x) <==> fs.IsInode(x) && x != ino
    ensures forall x: nat | fs.IsInode(x) && x < |fs.disk| && x < |gs.disk| && x != ino ::
              gs.InodeOf(x) == fs.InodeOf(x) && Alike(fs, gs, x)
  {
    hide TreeOk, InRange, Ptr, Alike, InodeOk, Contents, TailZero, Faithful;
    RootOk(fs);
    forall x: nat | fs.IsInode(x) && x != ino
      ensures gs.IsInode(x) && gs.InodeOf(x) == fs.InodeOf(x) && Alike(fs, gs, x) && InodeOk(gs, x)
    {
      ErasedAt(fs, gs, ino, x);
    }
    forall x: nat | x in gs.table
      ensures x < |gs.disk| && gs.IsInode(x) && gs.table[x].refcount > 0 && Faithful(gs.table[x], gs.disk[x])
    {
      TableInode(fs, x);
    }
  }

  /** A file without names and without references goes, and with it nothing else. */
  lemma ErasedFs(fs: Fs, gs: Fs, ino: nat)
    requires FsOk(fs) && ino in fs.table && fs.table[ino].inode.linkcount == 0 && Erased(fs, gs, ino)
    ensures FsOk(gs) && Dir(gs) == Dir(fs) && ino != ROOT_LOCATION && !gs.IsInode(ino)
    ensures FileView(gs) == FileView(fs) - {ino} && Refs(gs) == Refs(fs) - {ino}
  {
    hide Core, Dir, DirOk, FileView, Alike, InodeOk, Links, Contents, TailZero, LinkedBut, KeptOk, BootOk, BootKept;
    RootOk(fs);
    TableInode(fs, ino);
    ErasedBoot(fs, gs, ino);
    CoreBoot(fs, gs);
    Unlinked(fs, ino);
    ErasedCore(fs, gs, ino);
    RootOk(gs);
    UnlinkedEntries(fs, gs, ino);
    SameDir(fs, gs);
    ErasedLinks(fs, gs, ino);
    OtherFiles(fs, gs, ino);
    FilesAt(gs, ino);
  }

  lemma ErasedBoot(fs: Fs, gs: Fs, ino: nat)
    requires Erased(fs, gs, ino) && fs.IsInode(ino)
    ensures BootKept(fs, gs)
  {
  }

  lemma Unlinked(fs: Fs, ino: nat)
    requires FsOk(fs) && fs.IsInode(ino) && ino < |fs.disk| && fs.InodeOf(ino).linkcount == 0
    ensures ino != ROOT_LOCATION && Links(Dir(fs), ino) == 0
  {
    hide Core, Dir, DirOk, InodeOk, BootOk;
  }

  lemma UnlinkedEntries(fs: Fs, gs: Fs, ino: nat)
    requires Core(fs) && DirOk(fs) && Links(Dir(fs), ino) == 0
    requires forall x: nat | fs.IsInode(x) && x != ino :: gs.IsInode(x)
    ensures EntriesOk(gs, Dir(fs))
  {
    hide Core, Dir, Dense, Links;
    var es := Dir(fs);
    forall k: nat | k < |es| && es[k].Live()
      ensures gs.IsInode(es[k].ino)
    {
      LinksPositive(es, k);
    }
  }

  lemma ErasedLinks(fs: Fs, gs: Fs, ino: nat)
    requires FsOk(fs) && Core(gs) && Dir(gs) == Dir(fs) && gs.table.Keys == fs.table.Keys - {ino}
    requires forall x: nat :: gs.IsInode(x) <==> fs.IsInode(x) && x != ino
    requires forall x: nat | fs.IsInode(x) && x < |fs.disk| && x < |gs.disk| && x != ino ::
               gs.InodeOf(x) == fs.InodeOf(x)
    ensures LinkedBut(gs, 0, 0) && KeptOk(gs)
  {
    hide Core, Dir, DirOk, InodeOk, Links, BootOk;
    RootOk(fs);
    RootOk(gs);
    forall x: nat | gs.IsInode(x)
      ensures x < |gs.disk| && InodeOk(gs, x)
      ensures gs.InodeOf(x).linkcount == Links(Dir(gs), x) + (if x == ROOT_LOCATION then 1 else 0)
      ensures x in gs.table || gs.InodeOf(x).linkcount > 0
    {
      InodeOkAt(gs, x);
      assert fs.IsInode(x);
      assert x in fs.table || fs.InodeOf(x).linkcount > 0;
    }
  }
}
