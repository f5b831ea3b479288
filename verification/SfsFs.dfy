/** A mounted file system: the vnode table, the root directory, and the calls on names. */
module SfsFileSystem {
  import opened SfsLayout
  import opened SfsTree
  import opened SfsMap
  import opened SfsVolume
  import opened SfsSpace
  import opened SfsIo
  import opened SfsTruncate
  import opened SfsFile
  import opened SfsRuns
  import opened SfsDirent
  import opened SfsState
  import opened SfsChanges
  import opened UioModel
  import opened Bitmap
  import opened Errno

  /** Undefined is an index outside its buffer; Panic is a kernel panic or a failed assertion. */
  datatype Result = Success | Err(e: Errno) | Undefined | Panic

  datatype LoadResult = Loaded(sv: SfsVnode) | NoMemory | BadType

  /** The map finds each vnode of the array by its inode number, and there is one vnode per number. */
  ghost predicate Mirrors(vs: seq<SfsVnode>, t: map<nat, SfsVnode>) {
    && (forall sv | sv in vs :: sv.ino in t && t[sv.ino] == sv)
    && (forall ino | ino in t :: t[ino] in vs && t[ino].ino == ino)
    && (forall i: nat, j: nat | i < j < |vs| :: vs[i] != vs[j])
  }

  lemma MirrorsValues(vs: seq<SfsVnode>, t: map<nat, SfsVnode>)
    requires Mirrors(vs, t)
    ensures forall sv | sv in t.Values :: sv in vs && t[sv.ino] == sv
  {
  }

  lemma MirrorsAdd(vs: seq<SfsVnode>, t: map<nat, SfsVnode>, sv: SfsVnode)
    requires Mirrors(vs, t) && sv.ino !in t
    ensures Mirrors(vs + [sv], t[sv.ino := sv])
  {
    var ws := vs + [sv];
    assert forall x | x in vs :: x in ws;
    assert ws[|vs|] == sv;
  }

  lemma MirrorsRemove(vs: seq<SfsVnode>, t: map<nat, SfsVnode>, i: nat)
    requires Mirrors(vs, t) && i < |vs|
    ensures Mirrors(vs[..i] + vs[i + 1..], t - {vs[i].ino})
  {
    var ws := vs[..i] + vs[i + 1..];
    forall ino | ino in t && ino != vs[i].ino
      ensures t[ino] in ws
    {
      var j: nat :| j < |vs| && vs[j] == t[ino];
      assert ws[if j < i then j else j - 1] == t[ino];
    }
    assert forall sv | sv in ws :: sv in vs && sv != vs[i];
  }

  /** The values of the vnodes in the table. */
  ghost function TableOf(t: map<nat, SfsVnode>): (m: map<nat, Vnode>)
    reads t.Values
    ensures m.Keys == t.Keys
  {
    map ino | ino in t :: Vnode(t[ino].inode, t[ino].dirty, t[ino].refcount)
  }

  /** One vnode of the table, and the others. */
  lemma TableSplit(t: map<nat, SfsVnode>, sv: SfsVnode)
    requires sv.ino in t && t[sv.ino] == sv && forall ino | ino in t :: t[ino].ino == ino
    ensures TableOf(t) == TableOf(t - {sv.ino})[sv.ino := Vnode(sv.inode, sv.dirty, sv.refcount)]
    ensures sv !in (t - {sv.ino}).Values
  {
    assert forall x | x in (t - {sv.ino}).Values :: x.ino != sv.ino;
  }

  lemma TableAdd(t: map<nat, SfsVnode>, sv: SfsVnode)
    requires sv.ino !in t
    ensures TableOf(t[sv.ino := sv]) == TableOf(t)[sv.ino := Vnode(sv.inode, sv.dirty, sv.refcount)]
  {
  }

  lemma TableRemove(t: map<nat, SfsVnode>, sv: SfsVnode)
    requires forall ino | ino in t :: t[ino].ino == ino
    ensures TableOf(t - {sv.ino}) == TableOf(t) - {sv.ino}
  {
  }

  /** struct sfs_fs. */
  class SfsFs {
    const vol: Volume
    var vnodes: seq<SfsVnode>
    ghost var table: map<nat, SfsVnode>

    constructor (vol: Volume)
      ensures this.vol == vol && vnodes == [] && table == map[]
    {
      this.vol := vol;
      vnodes := [];
      table := map[];
    }

    ghost predicate Shape()
      reads this
    {
      Mirrors(vnodes, table)
    }

    ghost function Table(): (t: map<nat, Vnode>)
      requires Shape()
      reads this, vnodes
    {
      MirrorsValues(vnodes, table);
      TableOf(table)
    }

    ghost function State(): Fs
      requires Shape()
      reads this, vol, vol.freemap.v, vnodes
    {
      Fs(vol.disk, vol.owner, vol.Map(), Table())
    }

    ghost predicate ValidBut(ino0: nat, d: int)
      reads this, vol, vol.freemap, vol.freemap.v, vnodes
    {
      Shape() && vol.Valid() && FsOkBut(State(), ino0, d)
    }

    ghost predicate Valid()
      reads this, vol, vol.freemap, vol.freemap.v, vnodes
    {
      ValidBut(0, 0)
    }

    /** What the file system means to its users. */
    ghost function View(): View
      requires Shape() && Core(State())
      reads this, vol, vol.freemap.v, vnodes
    {
      ViewOf(State())
    }

    // ----- the vnode table

    /** The search of sfs_loadvnode through the array; every vnode in it lies in a block that is in use. */
    method FindVnode(ino: nat) returns (found: SfsVnode?)
      requires Shape() && vol.Valid() && forall x | x in table :: x in vol.owner
      ensures if ino in table then found == table[ino] else found == null
    {
      var i := 0;
      while i < |vnodes|
        invariant i <= |vnodes| && forall j: nat | j < i :: vnodes[j].ino != ino
      {
        var sv := vnodes[i];
        assert sv in vnodes;
        assert sv.ino < |vol.disk| && sv.ino < vol.freemap.nbits;
        var used := vol.freemap.IsMarked(sv.ino);
        assert used;
        if sv.ino == ino {
          return sv;
        }
        i := i + 1;
      }
      NotListed(ino);
      found := null;
    }

    lemma NotListed(ino: nat)
      requires Shape() && forall j: nat | j < |vnodes| :: vnodes[j].ino != ino
      ensures ino !in table
    {
    }

    lemma TableKeys()
      requires Shape()
      ensures Table().Keys == table.Keys
      ensures forall ino | ino in table :: table[ino].ino == ino && table[ino] in vnodes
    {
    }

    lemma Listed(i: nat)
      requires Shape() && i < |vnodes|
      ensures Has(vnodes[i]) && forall j: nat | j < |vnodes| && j != i :: vnodes[j] != vnodes[i]
    {
    }

    lemma EmptyTable()
      requires Shape() && vnodes == []
      ensures table == map[] && Table() == map[]
    {
    }

    /** A vnode of this table. */
    ghost predicate Has(sv: SfsVnode)
      reads this
    {
      sv.ino in table && table[sv.ino] == sv
    }

    lemma Split(sv: SfsVnode)
      requires Shape() && Has(sv)
      ensures Table() == TableOf(table - {sv.ino})[sv.ino := Vnode(sv.inode, sv.dirty, sv.refcount)]
      ensures sv !in (table - {sv.ino}).Values && sv in vnodes && forall ino | ino in table :: table[ino].ino == ino
    {
      TableSplit(table, sv);
    }

    /** vnode_incref. */
    method IncRef(sv: SfsVnode)
      requires Shape() && Has(sv)
      modifies sv`refcount
      ensures Shape() && sv.refcount == old(sv.refcount) + 1
      ensures Table() == old(Table())[sv.ino := old(Table())[sv.ino].(refcount := sv.refcount)]
    {
      hide Mirrors, TableOf, Table;
      Split(sv);
      sv.refcount := sv.refcount + 1;
      Split(sv);
    }

    /** The end of sfs_loadvnode: a new vnode enters the table. */
    method AddVnode(ino: nat, inode: Inode, dirty: bool) returns (sv: SfsVnode)
      requires Shape() && ino !in table
      modifies this
      ensures Shape() && fresh(sv) && sv.ino == ino && vnodes == old(vnodes) + [sv] && table == old(table)[ino := sv]
      ensures Table() == old(Table())[ino := Vnode(inode, dirty, 1)]
    {
      hide Mirrors;
      sv := new SfsVnode(ino, inode, dirty);
      MirrorsAdd(vnodes, table, sv);
      TableAdd(table, sv);
      vnodes := vnodes + [sv];
      table := table[ino := sv];
    }

    /**
     * sfs_loadvnode: the vnode of inode `ino`, with one reference more, loaded from disk if it is not in the
     * table. `memory` says whether the allocations succeed.
     */
    method LoadVnode(ino: nat, forcetype: nat, memory: bool) returns (r: LoadResult)
      requires Shape() && vol.Valid() && (forall x | x in table :: x in vol.owner)
      requires ino in vol.owner
      requires forcetype != TYPE_INVAL ==> ino !in table && DecodeInode(vol.disk[ino]).typ == TYPE_INVAL
      modifies this, vnodes
      ensures Shape()
      ensures r.Loaded? ==> r.sv.ino == ino && table == old(table)[ino := r.sv]
      ensures ino in old(table) ==> r == Loaded(old(table)[ino]) && vnodes == old(vnodes)
      ensures ino in old(table) ==>
                Table() == old(Table())[ino := old(Table())[ino].(refcount := old(Table())[ino].refcount + 1)]
      ensures ino !in old(table) && r.Loaded? ==> fresh(r.sv) && vnodes == old(vnodes) + [r.sv]
      ensures ino !in old(table) && r.Loaded? ==>
                var n := DecodeInode(vol.disk[ino]);
                Table() == old(Table())[ino := if forcetype == TYPE_INVAL then Vnode(n, false, 1)
                                               else Vnode(n.(typ := forcetype), true, 1)]
      ensures ino !in old(table) ==> (r.NoMemory? <==> !memory)
      ensures r.BadType? ==>
                (if forcetype == TYPE_INVAL then DecodeInode(vol.disk[ino]).typ else forcetype)
                !in {TYPE_FILE, TYPE_DIR}
      ensures !r.Loaded? ==> vnodes == old(vnodes) && table == old(table) && Table() == old(Table())
    {
      hide Volume.Valid, DecodeInode;
      var found := FindVnode(ino);
      if found != null {
        assert Has(found);
        IncRef(found);
        return Loaded(found);
      }
      if !memory {
        return NoMemory;
      }
      vol.OwnedInVolume(ino);
      var inode := DecodeInode(vol.disk[ino]);
      var dirty := false;
      if forcetype != TYPE_INVAL {
        inode := inode.(typ := forcetype);
        dirty := true;
      }
      if inode.typ != TYPE_FILE && inode.typ != TYPE_DIR {
        return BadType;
      }
      var sv := AddVnode(ino, inode, dirty);
      r := Loaded(sv);
    }

    // ----- inodes and the disk

    /** sfs_sync_inode. */
    method SyncInode(sv: SfsVnode)
      requires Shape() && vol.Valid() && Core(State()) && Has(sv)
      modifies vol`disk, sv`dirty
      ensures Shape() && vol.Valid() && Synced(old(State()), State(), sv.ino) && !sv.dirty
    {
      hide Mirrors, TableOf, Table, Core, Volume.Valid, EncodeInode, DecodeInode;
      ghost var fs := State();
      Split(sv);
      TableInode(fs, sv.ino);
      if sv.dirty {
        InodeFits(fs, sv.ino);
        InodeRoundTrip(sv.inode);
        vol.WriteBlock(sv.ino, EncodeInode(sv.inode));
        sv.dirty := false;
      }
      Split(sv);
    }

    // ----- references

    /** sfs_truncate on a vnode of this table. */
    method TruncateVnode(sv: SfsVnode, len: nat)
      requires Valid() && Has(sv) && sv.ino != ROOT_LOCATION && len < OFF_LIMIT
      modifies vol, vol.freemap.v, sv
      ensures Valid() && Dir(State()) == old(Dir(State())) && Refs(State()) == old(Refs(State()))
      ensures sv.ino in old(FileView(State())) && FileView(State()).Keys == old(FileView(State())).Keys
      ensures forall x | x in old(FileView(State())) && x != sv.ino :: FileView(State())[x] == old(FileView(State()))[x]
      ensures sv.inode.linkcount == old(sv.inode.linkcount) && sv.refcount == old(sv.refcount)
      ensures FileStep(old(vol.Now(sv)), vol.Now(sv), sv.ino, Truncate(len))
      ensures |vol.disk| == |old(vol.disk)| && OthersKept(old(vol.owner), vol.owner, sv.ino)
      ensures old(FileView(State()))[sv.ino].clean ==>
                FileView(State())[sv.ino].bytes == CutTo(old(FileView(State()))[sv.ino].bytes, len)
    {
      hide Mirrors, TableOf, Table, FsOkBut, Core, Volume.Valid, Dir, FileView, Truncated, TreeOk, FileStep, Called,
        Refs, CutTo, OthersKept;
      ghost var fs := State();
      Split(sv);
      FsParts(fs, 0, 0);
      TableInode(fs, sv.ino);
      InodeRange(fs, sv.ino);
      InodeOkAt(fs, sv.ino);
      SfsTruncate.Truncate(vol, sv, len);
      Split(sv);
      vol.AllInVolume();
      TruncateCalled(fs, State(), sv.ino, len);
      StepKeepsOthers(fs, State(), sv.ino, Truncate(len));
      CallFs(fs, State(), sv.ino, Truncate(len), 0, 0);
      FsParts(State(), 0, 0);
      TruncateView(fs, State(), sv.ino, len);
    }

    /** array_remove on the place of a vnode in the table; the panic when it is not there cannot be reached. */
    method RemoveVnode(sv: SfsVnode)
      requires Shape() && Has(sv)
      modifies this
      ensures Shape() && table == old(table) - {sv.ino} && Table() == old(Table()) - {sv.ino}
      ensures forall x | x in vnodes :: x in old(vnodes)
    {
      hide TableOf, Mirrors, Table;
      Split(sv);
      TableHere();
      var ix := 0;
      while ix < |vnodes| && vnodes[ix] != sv
        invariant ix <= |vnodes| && forall j: nat | j < ix :: vnodes[j] != sv
      {
        ix := ix + 1;
      }
      MirrorsRemove(vnodes, table, ix);
      TableRemove(table, sv);
      vnodes := vnodes[..ix] + vnodes[ix + 1..];
      table := table - {sv.ino};
      TableHere();
    }

    lemma TableHere()
      requires Shape()
      ensures Table() == TableOf(table)
    {
    }

    /** Frees the block of an inode; what the file had lost belongs to nobody from now on. */
    method FreeBlockOf(sv: SfsVnode)
      requires vol.Valid() && sv.ino in vol.owner && sv.ino != 0
      modifies vol, vol.freemap.v, sv`inode
      ensures vol.Valid() && vol.disk == old(vol.disk) && vol.owner == Strip(old(vol.owner), sv.ino)
      ensures vol.freemapDirty && |vol.Map().bits| == |old(vol.Map()).bits|
    {
      hide Volume.Valid, Strip;
      vol.SuperblockOwned();
      ghost var owner := vol.owner;
      StripKeys(owner, sv.ino);
      vol.Bfree(sv.ino);
      sv.inode := sv.inode.(blocks := Wrap(sv.inode.blocks - 1));
      vol.Reassign(Strip(owner, sv.ino));
    }

    /** Frees an inode and drops its vnode. */
    method FreeInode(sv: SfsVnode)
      requires Shape() && vol.Valid() && Core(State()) && Has(sv) && sv.ino != ROOT_LOCATION
      modifies this, vol, vol.freemap.v, sv`inode
      ensures Shape() && vol.Valid() && table == old(table) - {sv.ino}
      ensures Erased(old(State()), State(), sv.ino)
    {
      hide Mirrors, TableOf, Table, Core, Volume.Valid, Erased, Strip;
      ghost var fs := State();
      Split(sv);
      TableInode(fs, sv.ino);
      RootOk(fs);
      ghost var rest := TableOf(table - {sv.ino});
      WithoutUpdate(rest, sv.ino, fs.table[sv.ino]);
      FreeBlockOf(sv);
      assert TableOf(table - {sv.ino}) == rest;
      Split(sv);
      WithoutUpdate(rest, sv.ino, Vnode(sv.inode, sv.dirty, sv.refcount));
      RemoveVnode(sv);
      ErasedBy(fs, State(), sv.ino);
    }

    /** The end of sfs_reclaim: the inode is written, freed if it has no name, and its vnode is dropped. */
    method Discard(sv: SfsVnode)
      requires Valid() && Has(sv)
      modifies this, vol, vol.freemap.v, sv
      ensures Valid() && table == old(table) - {sv.ino} && Dir(State()) == old(Dir(State()))
      ensures Refs(State()) == old(Refs(State())) - {sv.ino}
      ensures FileView(State()) == if old(sv.inode.linkcount) == 0 then old(FileView(State())) - {sv.ino}
                                   else old(FileView(State()))
      ensures |vol.disk| == |old(vol.disk)| && OthersKept(old(vol.owner), vol.owner, sv.ino)
      ensures old(sv.inode.linkcount) > 0 ==> vol.owner == old(vol.owner)
    {
      hide Mirrors, TableOf, Table, FsOkBut, Core, Volume.Valid, Dir, FileView, Refs, Erased;
      ghost var gs := State();
      Split(sv);
      FsParts(gs, 0, 0);
      SyncInode(sv);
      ghost var hs := State();
      Split(sv);
      SyncedFs(gs, hs, sv.ino, 0, 0);
      FsParts(hs, 0, 0);
      if sv.inode.linkcount == 0 {
        LinklessFile(hs, sv.ino);
        FreeInode(sv);
        ErasedFs(hs, State(), sv.ino);
        ErasedOwners(hs, State(), sv.ino);
      } else {
        RemoveVnode(sv);
        UnloadedFs(hs, State(), sv.ino, 0, 0);
      }
    }

    /**
     * sfs_reclaim: drops the vnode, which nobody else refers to. A file without a name goes with it, and so
     * do its blocks; otherwise its inode is on disk afterwards.
     */
    method Reclaim(sv: SfsVnode) returns (r: Result)
      requires Valid() && Has(sv)
      modifies this, vol, vol.freemap.v, sv
      ensures Valid() && (r == if old(sv.refcount) != 1 then Err(EBUSY) else Success)
      ensures r == Success ==> table == old(table) - {sv.ino} && View() == Unloaded(old(View()), sv.ino)
      ensures r != Success ==> State() == old(State()) && vnodes == old(vnodes) && table == old(table)
      ensures |vol.disk| == |old(vol.disk)| && OthersKept(old(vol.owner), vol.owner, sv.ino)
      ensures old(sv.inode.linkcount) > 0 ==> vol.owner == old(vol.owner)
    {
      hide Mirrors, TableOf, Table, FsOkBut, Core, Volume.Valid, Dir, FileView, Refs, FileStep, OthersKept, Named,
        Unloaded;
      ghost var fs := State();
      FsParts(fs, 0, 0);
      SameKeepsOthers(fs.owner, sv.ino);
      if sv.refcount != 1 {
        return Err(EBUSY);
      }
      Split(sv);
      TableInode(fs, sv.ino);
      NamedCount(fs, sv.ino);
      if sv.inode.linkcount == 0 {
        LinklessFile(fs, sv.ino);
        TruncateVnode(sv, 0);
        FsParts(State(), 0, 0);
      }
      ghost var owner, files := vol.owner, FileView(State());
      Discard(sv);
      OthersKeptTwice(fs.owner, owner, vol.owner, sv.ino);
      FsParts(State(), 0, 0);
      UnloadedView(fs, State(), sv.ino, files);
      r := Success;
    }

    /** vnode_decref, with the reclaim that the last reference brings about. */
    method DecRef(sv: SfsVnode)
      requires Valid() && Has(sv)
      modifies this, vol, vol.freemap.v, sv
      ensures Valid() && sv.ino in old(View()).refs && View() == Released(old(View()), sv.ino)
      ensures table == if old(sv.refcount) > 1 then old(table) else old(table) - {sv.ino}
      ensures |vol.disk| == |old(vol.disk)| && OthersKept(old(vol.owner), vol.owner, sv.ino)
      ensures old(sv.inode.linkcount) > 0 ==> vol.owner == old(vol.owner)
    {
      hide Mirrors, TableOf, Table, FsOkBut, Core, Volume.Valid, Dir, FileView, FileStep, OthersKept;
      ghost var fs := State();
      FsParts(fs, 0, 0);
      Split(sv);
      TableInode(fs, sv.ino);
      if sv.refcount > 1 {
        sv.refcount := sv.refcount - 1;
        Split(sv);
        SameKeepsOthers(fs.owner, sv.ino);
        Referenced(fs, State(), sv.ino, sv.refcount, 0, 0);
        FsParts(State(), 0, 0);
      } else {
        var r := Reclaim(sv);
      }
    }

    // ----- the directory

    /** sfs_readdir: entry `slot` of the directory. It cannot fail and changes nothing. */
    method ReadDir(dir: SfsVnode, slot: nat) returns (e: Entry)
      requires Valid() && Has(dir) && dir.ino == ROOT_LOCATION && slot < |Dir(State())|
      modifies vol, vol.freemap.v, dir
      ensures Valid() && State() == old(State()) && e == Dir(State())[slot]
    {
      hide Mirrors, TableOf, Table, FsOkBut, Core, Volume.Valid, Dir, FileStep, Tidy, Smooth, Explained, TreeOk,
        DecodeEntry, Stops;
      ghost var fs := State();
      FsParts(fs, 0, 0);
      Split(dir);
      DirFacts(fs, slot);
      var uio := new Uio(ZeroBytes(DIRENT), slot * DIRENT, false);
      var r := SfsRead(vol, dir, uio);
      ReadIsPure(fs, vol.Now(dir), slot, r, uio.mem, uio.base);
      Split(dir);
      e := DecodeEntry(uio.mem);
    }

    /** The write of sfs_writedir: all of the entry or nothing of it. */
    method PutBytes(dir: SfsVnode, b: seq<byte>, slot: nat) returns (io: IoResult)
      requires Valid() && Has(dir) && dir.ino == ROOT_LOCATION && |b| == DIRENT && Core(State())
               && slot <= |Dir(State())|
      modifies vol, vol.freemap.v, dir
      ensures Shape() && vol.Valid() && RootIo(old(State()), State(), slot, b, io)
    {
      hide Mirrors, TableOf, Table, FsOkBut, Core, Volume.Valid, Dir, FileStep, Tidy, Smooth, TreeOk, Stops,
        Explained, Covers, Ways, Missing, BlockLen, RootIo, WriteOutcome;
      ghost var fs := State();
      Split(dir);
      DirFacts(fs, slot);
      var uio := new Uio(b, slot * DIRENT, true);
      ghost var u := uio.Now();
      io := SfsWrite(vol, dir, uio);
      Split(dir);
      vol.AllInVolume();
      RootIoBy(fs, State(), slot, b, u, uio.Now(), io);
    }

    /** sfs_writedir: writes entry `slot` of the directory, or appends one. */
    method WriteDir(dir: SfsVnode, b: seq<byte>, slot: nat) returns (r: Result)
      requires Valid() && Has(dir) && dir.ino == ROOT_LOCATION && |b| == DIRENT && slot <= |Dir(State())|
      requires EntriesOk(State(), PutEntry(Dir(State()), slot, DecodeEntry(b)))
      requires DecodeEntry(b).Live() || slot < |Dir(State())|
      modifies vol, vol.freemap.v, dir
      ensures Shape() && vol.Valid()
      ensures r == Success ==> DirPut(old(State()), State(), slot, DecodeEntry(b))
      ensures r != Success ==> Valid() && View() == old(View()) && Dir(State()) == old(Dir(State()))
      ensures r == Success || r == Err(ENOSPC) || r == Undefined
      ensures slot < |old(Dir(State()))| ==> r == Success
      ensures r == Undefined ==> FAULTBLOCK * BLOCKSIZE <= slot * DIRENT
      ensures FAULTBLOCK * BLOCKSIZE <= slot * DIRENT ==> r != Success
      ensures r == Err(ENOSPC) ==> VolumeFull()
      ensures slot * DIRENT < FAULTBLOCK * BLOCKSIZE ==> (r == Err(ENOSPC) <==> TooFull(old(State()), slot))
      ensures Core(State()) && Spent(old(State()), State(), 0)
      ensures |vol.disk| == |old(vol.disk)| && OwnersGrow(old(vol.owner), vol.owner, ROOT_LOCATION)
    {
      hide Mirrors, TableOf, Table, FsOkBut, Core, Volume.Valid, Dir, DecodeEntry, DirPut, EntriesOk, PutEntry,
        FileView, DirOk, OwnersGrow, Spent, TooFull, RootIo, Called;
      ghost var fs := State();
      FsParts(fs, 0, 0);
      var io := PutBytes(dir, b, slot);
      RootIoParts(fs, State(), slot, b, io);
      if io.Done? {
        FsDirOk(fs);
        DirWritten(fs, State(), slot, b);
        PutBelowFault(fs, State(), slot, DecodeEntry(b));
        EntrySpent(fs, State(), slot, b, io);
        return Success;
      }
      DirUnwritten(fs, State(), slot, b, 0, 0);
      FsParts(State(), 0, 0);
      EntrySpent(fs, State(), slot, b, io);
      r := if io.Fault? then Undefined else Err(io.e);
    }

    /** Every block of the volume is in use. */
    ghost predicate VolumeFull()
      reads vol
    {
      FullBut(|vol.disk|)
    }

    ghost predicate FullBut(b: nat)
      reads vol
    {
      forall x: nat | x < |vol.disk| && x != b :: x in vol.owner
    }

    /** sfs_dir_nentries; the panic on a partial entry cannot be reached. */
    method CountEntries(dir: SfsVnode) returns (n: nat)
      requires Valid() && Has(dir) && dir.ino == ROOT_LOCATION
      ensures n == |Dir(State())|
    {
      hide Mirrors, TableOf, Table, FsOkBut, Core, Volume.Valid, Dir;
      FsParts(State(), 0, 0);
      Split(dir);
      DirFacts(State(), 0);
      assert dir.inode.size % DIRENT == 0;
      n := dir.inode.size / DIRENT;
    }

    /**
     * sfs_dir_findname: the slot and inode of a name, and the last free slot, or -1. The assertion that the
     * name is not found twice cannot fail.
     */
    method FindName(dir: SfsVnode, name: Name) returns (found: bool, ino: nat, slot: nat, emptyslot: int)
      requires Valid() && Has(dir) && dir.ino == ROOT_LOCATION && IsName(name)
      modifies vol, vol.freemap.v, dir
      ensures Valid() && State() == old(State())
      ensures found <==> name in Bindings(Dir(State()))
      ensures found ==> Binds(Dir(State()), slot, name) && Dir(State())[slot].ino == ino == Bindings(Dir(State()))[name]
      ensures -1 <= emptyslot < |Dir(State())| && (emptyslot >= 0 ==> !Dir(State())[emptyslot].Live())
      ensures forall k: nat | emptyslot < k < |Dir(State())| :: Dir(State())[k].Live()
    {
      hide Mirrors, TableOf, Table, FsOkBut, Core, Volume.Valid, Dir, Bindings;
      ghost var fs := State();
      FsParts(fs, 0, 0);
      ghost var es := Dir(fs);
      UniqueDir(fs);
      found, ino, slot, emptyslot := false, 0, 0, -1;
      var nentries := CountEntries(dir);
      var i := 0;
      while i < nentries
        invariant Valid() && State() == fs && i <= nentries == |es|
        invariant found ==> slot < i && Binds(es, slot, name) && es[slot].ino == ino
        invariant !found ==> forall k: nat | k < i :: !Binds(es, k, name)
        invariant -1 <= emptyslot < i && (emptyslot >= 0 ==> !es[emptyslot].Live())
        invariant forall k: nat | emptyslot < k < i :: es[k].Live()
      {
        var tsd := ReadDir(dir, i);
        if !tsd.Live() {
          emptyslot := i;
        } else if tsd.name == name {
          assert !found;
          found, slot, ino := true, i, tsd.ino;
        }
        i := i + 1;
      }
      FoundBinding(es, name, found, slot);
    }

    /** sfs_dir_link: a new entry, in the free slot that the search came upon or at the end. */
    method DirLink(dir: SfsVnode, name: Name, ino: nat) returns (r: Result, slot: nat)
      requires Valid() && Has(dir) && dir.ino == ROOT_LOCATION && IsName(name) && State().IsInode(ino)
      modifies vol, vol.freemap.v, dir
      ensures Shape() && vol.Valid()
      ensures r == Err(EEXIST) <==> name in Bindings(old(Dir(State())))
      ensures r == Err(ENAMETOOLONG) <==> name !in Bindings(old(Dir(State()))) && |name| + 1 > NAMELEN
      ensures r in {Success, Err(EEXIST), Err(ENAMETOOLONG), Err(ENOSPC), Undefined}
      ensures r == Success ==>
                && ValidBut(ino, 1) && View() == old(View()).(dir := old(View()).dir[name := ino])
                && Binds(Dir(State()), slot, name) && Dir(State())[slot].ino == ino
                && SameBut(old(Dir(State())), Dir(State()), slot)
                && (slot < |old(Dir(State()))| ==> !old(Dir(State()))[slot].Live())
                && dir.inode.linkcount == old(dir.inode.linkcount)
      ensures r != Success ==> Valid() && View() == old(View()) && Dir(State()) == old(Dir(State()))
      ensures r == Undefined ==> DirFull(old(Dir(State())))
      ensures DirFull(old(Dir(State()))) ==> r != Success
      ensures r == Err(ENOSPC) ==> VolumeFull() && !HasFree(old(Dir(State())))
      ensures name !in Bindings(old(Dir(State()))) && |name| + 1 <= NAMELEN && !DirFull(old(Dir(State()))) ==>
                (r == Err(ENOSPC) <==> LacksSpace(old(State()), 0))
      ensures Core(State()) && Spent(old(State()), State(), 0)
      ensures |vol.disk| == |old(vol.disk)| && OwnersGrow(old(vol.owner), vol.owner, ROOT_LOCATION)
    {
      hide Mirrors, TableOf, Table, FsOkBut, Core, Volume.Valid, Dir, Bindings, DirPut, EntriesOk, FileView,
        EncodeEntry, DecodeEntry, SameBut, Spent, TooFull, LacksSpace, OwnersGrow;
      ghost var fs := State();
      FsParts(fs, 0, 0);
      SpentNothing(fs);
      LacksIs(fs);
      OwnersStay(fs);
      Split(dir);
      slot := 0;
      var found, oldino, oldslot, emptyslot := FindName(dir, name);
      if found {
        return Err(EEXIST), 0;
      }
      if |name| + 1 > NAMELEN {
        return Err(ENAMETOOLONG), 0;
      }
      var n := CountEntries(dir);
      slot := if emptyslot < 0 then n else emptyslot;
      InodeNumber(fs, ino);
      EntryRoundTrip(ino, name);
      NewEntryOk(fs, slot, Entry(ino, name));
      r := WriteDir(dir, EncodeEntry(ino, name), slot);
      if r == Success {
        Split(dir);
        PutDone(fs, State(), slot, Entry(ino, name));
      }
    }

    /** sfs_dir_unlink: clears a slot. It cannot fail, because the slot's block is there. */
    method DirUnlink(dir: SfsVnode, slot: nat)
      requires Valid() && Has(dir) && dir.ino == ROOT_LOCATION && slot < |Dir(State())| && Dir(State())[slot].Live()
      modifies vol, vol.freemap.v, dir
      ensures Shape() && vol.Valid() && ValidBut(old(Dir(State()))[slot].ino, -1)
      ensures View() == old(View()).(dir := old(View()).dir - {old(Dir(State()))[slot].name})
      ensures dir.inode.linkcount == old(dir.inode.linkcount)
    {
      hide Mirrors, TableOf, Table, FsOkBut, Core, Volume.Valid, Dir, Bindings, DirPut, EntriesOk, FileView,
        EncodeEntry, DecodeEntry;
      ghost var fs := State();
      FsParts(fs, 0, 0);
      Split(dir);
      EntryRoundTrip(NOINO, []);
      ClearedEntryOk(fs, slot, Entry(NOINO, []));
      var r := WriteDir(dir, EncodeEntry(NOINO, []), slot);
      Split(dir);
      ClearDone(fs, State(), slot, Entry(NOINO, []));
    }

    // ----- vnodes by name

    /** sfs_loadvnode on an inode that exists: one reference more. */
    method Grab(ino: nat, memory: bool) returns (r: LoadResult)
      requires Valid() && State().IsInode(ino)
      modifies this, vnodes
      ensures Valid() && !r.BadType? && Dir(State()) == old(Dir(State()))
      ensures r.Loaded? ==> Has(r.sv) && r.sv.ino == ino && View() == Grabbed(old(View()), ino)
      ensures r.Loaded? ==> fresh(r.sv) || r.sv in old(vnodes)
      ensures r.Loaded? ==>
                table == old(table)[ino := r.sv]
                && r.sv.inode.linkcount == old(State()).InodeOf(ino).linkcount
      ensures ino in old(table) ==> r == Loaded(old(table)[ino])
      ensures r.NoMemory? ==> State() == old(State()) && table == old(table) && !memory
      ensures Core(State()) && (r.Loaded? ==> RootSame(old(State()), State()))
      ensures forall x | x in vnodes :: x in old(vnodes) || fresh(x)
    {
      hide Mirrors, TableOf, Table, FsOkBut, Core, Volume.Valid, Dir, FileView, DecodeInode, RootSame;
      ghost var fs := State();
      FsParts(fs, 0, 0);
      TableKeys();
      TableMarked(fs);
      InodeNumber(fs, ino);
      InodeType(fs, ino);
      r := LoadVnode(ino, TYPE_INVAL, memory);
      if r.Loaded? {
        Split(r.sv);
        GrabbedFs(fs, State(), ino);
        RetouchedRoot(fs, State(), ino);
      }
    }

    /** sfs_lookonce; its panic on a link count of zero cannot be reached. */
    method LookOnce(dir: SfsVnode, name: Name, memory: bool) returns (r: Result, sv: SfsVnode?, slot: nat)
      requires Valid() && Has(dir) && dir.ino == ROOT_LOCATION && IsName(name)
      modifies this, vol, vol.freemap.v, vnodes
      ensures Valid() && r in {Success, Err(ENOENT), Err(ENOMEM)}
      ensures r == Err(ENOENT) <==> name !in old(View()).dir
      ensures r == Err(ENOMEM) ==> !memory && old(View()).dir[name] !in old(table)
      ensures r != Success ==> View() == old(View())
      ensures vol.disk == old(vol.disk) && vol.owner == old(vol.owner)
      ensures r == Success ==>
                && sv != null && Has(sv) && sv.ino == old(View()).dir[name] && sv.inode.linkcount > 0
                && View() == Grabbed(old(View()), sv.ino)
                && Dir(State()) == old(Dir(State())) && Binds(Dir(State()), slot, name)
                && Dir(State())[slot].ino == sv.ino && table == old(table)[sv.ino := sv]
                && (sv.ino in old(table) ==> sv == old(table)[sv.ino]) && (fresh(sv) || sv in old(vnodes))
                && sv.inode.linkcount == old(State()).InodeOf(sv.ino).linkcount
                && Core(State()) && RootSame(old(State()), State())
    {
      hide Mirrors, TableOf, Table, FsOkBut, Core, Volume.Valid, Dir, FileView, Bindings, RootSame;
      ghost var fs := State();
      FsParts(fs, 0, 0);
      Split(dir);
      sv := null;
      var found, ino, s, emptyslot := FindName(dir, name);
      slot := s;
      if !found {
        return Err(ENOENT), null, slot;
      }
      NamedInode(fs, slot, name);
      var l := Grab(ino, memory);
      if l.NoMemory? {
        return Err(ENOMEM), null, slot;
      }
      sv := l.sv;
      if sv.inode.linkcount == 0 {
        return Panic, null, slot;
      }
      FsParts(State(), 0, 0);
      r := Success;
    }

    // ----- the calls of the VFS layer

    /** A change of a link count, with the dirty mark that goes with it. */
    method Relink(sv: SfsVnode, d: int)
      requires ValidBut(sv.ino, d) && Has(sv) && 0 <= sv.inode.linkcount + d < HALF_LIMIT
      modifies sv`inode, sv`dirty
      ensures Valid() && View() == old(View()) && Dir(State()) == old(Dir(State()))
      ensures sv.inode == old(sv.inode).(linkcount := sv.inode.linkcount)
      ensures sv.inode.linkcount == old(sv.inode.linkcount) + d
      ensures Core(State()) && RootSame(old(State()), State())
    {
      hide Mirrors, TableOf, Table, FsOkBut, Core, Volume.Valid, Dir, FileView, RootSame, InodeOk;
      ghost var fs := State();
      FsParts(fs, sv.ino, d);
      Split(sv);
      sv.inode := sv.inode.(linkcount := sv.inode.linkcount + d);
      sv.dirty := true;
      Split(sv);
      Relinked(fs, State(), sv.ino, d);
      FsParts(State(), 0, 0);
      TableInode(fs, sv.ino);
      RetouchedRoot(fs, State(), sv.ino);
    }

    /** sfs_makeobj: a new file. Out of memory, the block that was taken for its inode is not given back. */
    method MakeObj(memory: bool) returns (r: Result, sv: SfsVnode?)
      requires Valid()
      modifies this, vol, vol.freemap.v, vnodes
      ensures Valid() && r in {Success, Err(ENOSPC), Err(ENOMEM)}
      ensures r != Success ==> View() == old(View()) && vnodes == old(vnodes) && table == old(table)
      ensures |vol.disk| == |old(vol.disk)| && Dir(State()) == old(Dir(State()))
      ensures r == Err(ENOMEM) ==>
                !memory && exists b: nat :: b !in old(vol.owner) && vol.owner == old(vol.owner)[b := Orphan]
      ensures r == Err(ENOSPC) ==> vol.owner == old(vol.owner) && VolumeFull()
      ensures r == Success ==>
                && Core(State()) && RootSame(old(State()), State()) && |vol.owner| == |old(vol.owner)| + 1
                && sv != null && sv.ino !in old(vol.owner) && vol.owner == old(vol.owner)[sv.ino := InodeBlock]
                && fresh(sv) && Has(sv) && vnodes == old(vnodes) + [sv] && table == old(table)[sv.ino := sv]
                && sv.ino !in old(table) && State().IsInode(sv.ino) && sv.inode.linkcount == 0
                && sv.ino !in old(View()).files && View() == Created(old(View()), sv.ino)
    {
      hide Mirrors, TableOf, Table, FsOkBut, Core, Volume.Valid, Dir, FileView, DecodeInode, FreshInode, Taken,
        Created, RootSame;
      ghost var fs := State();
      FsParts(fs, 0, 0);
      TableKeys();
      TableMarked(fs);
      sv := null;
      var got := vol.Balloc(InodeBlock);
      if got.NoSpace? {
        return Err(ENOSPC), null;
      }
      sv := LoadNew(got.index, memory);
      TakenBy(fs, State(), got.index, if sv == null then Orphan else InodeBlock);
      if sv == null {
        OrphanFs(fs, State(), got.index);
        FsParts(State(), 0, 0);
        return Err(ENOMEM), null;
      }
      NewInodeFs(fs, State(), sv.ino);
      FsParts(State(), 0, 0);
      CreatedView(fs, State(), sv.ino);
      TakenRoot(fs, State(), sv.ino);
      r := Success;
    }

    /** A vnode for the block that sfs_makeobj took; without memory for it the block is nobody's. */
    method LoadNew(ino: nat, memory: bool) returns (sv: SfsVnode?)
      requires Shape() && vol.Valid() && (forall x | x in table :: x in vol.owner)
      requires ino in vol.owner && ino !in table && ino != 0 && ino < |vol.disk| && vol.disk[ino] == ZeroBlock()
      modifies this, vol`owner, vnodes
      ensures Shape() && vol.Valid()
      ensures sv == null ==> vnodes == old(vnodes) && table == old(table) && Table() == old(Table()) && !memory
      ensures sv == null ==> vol.owner == old(vol.owner)[ino := Orphan]
      ensures sv != null ==> fresh(sv) && Has(sv) && vnodes == old(vnodes) + [sv] && table == old(table)[ino := sv]
      ensures sv != null ==> vol.owner == old(vol.owner) && sv.ino == ino && sv.inode.linkcount == 0
      ensures sv != null ==> Table() == old(Table())[ino := Vnode(FreshInode().(typ := TYPE_FILE), true, 1)]
    {
      hide Mirrors, TableOf, Table, Volume.Valid, DecodeInode, FreshInode;
      ClearedBlockInode();
      FreshType();
      var l := LoadVnode(ino, TYPE_FILE, memory);
      if l.Loaded? {
        Split(l.sv);
        assert Table()[ino] == Vnode(l.sv.inode, l.sv.dirty, l.sv.refcount);
        return l.sv;
      }
      vol.SuperblockOwned();
      vol.Reassign(vol.owner[ino := Orphan]);
      sv := null;
    }

    /**
     * sfs_creat: a reference to the file of that name, which is made if it is missing and must be missing if
     * `excl` is set. Any failure, even after the inode was made, leaves names, files and references alone.
     */
    method Creat(dir: SfsVnode, name: Name, excl: bool, memory: bool) returns (r: Result, newguy: SfsVnode?)
      requires Valid() && Has(dir) && dir.ino == ROOT_LOCATION && IsName(name)
      modifies this, vol, vol.freemap.v, vnodes
      ensures Valid() && r in {Success, Err(EEXIST), Err(ENAMETOOLONG), Err(ENOSPC), Err(ENOMEM), Undefined}
      ensures r.Err? ==> View() == old(View())
      ensures r == Err(EEXIST) <==> excl && name in old(View()).dir
      ensures r == Err(ENAMETOOLONG) ==> name !in old(View()).dir && |name| + 1 > NAMELEN
      ensures r == Success && name !in old(View()).dir ==> |name| + 1 <= NAMELEN
      ensures r == Err(ENOMEM) ==> !memory
      ensures r == Err(ENOMEM) && name !in old(View()).dir ==>
                exists b: nat :: b !in old(vol.owner) && vol.owner == old(vol.owner)[b := Orphan]
      ensures r == Err(ENOSPC) ==> name !in old(View()).dir && exists b: nat :: b !in old(vol.owner) && FullBut(b)
      ensures memory && name !in old(View()).dir && |name| + 1 <= NAMELEN && !DirFull(old(Dir(State()))) ==>
                (r == Err(ENOSPC) <==> LacksSpace(old(State()), 1))
      ensures r == Success && name !in old(View()).dir ==>
                Core(State()) && Spent(old(State()), State(), 1) && |Dir(State())| <= |old(Dir(State()))| + 1
      ensures r == Success && name !in old(View()).dir ==> fresh(newguy)
      ensures forall x | x in vnodes :: x in old(vnodes) || fresh(x) || r != Success
      ensures name !in old(View()).dir && DirFull(old(Dir(State()))) ==> r != Success
      ensures r == Undefined ==>
                && name !in old(View()).dir && DirFull(old(Dir(State()))) && newguy != null
                && newguy.ino !in old(View()).files && View() == Created(old(View()), newguy.ino)
      ensures |vol.disk| == |old(vol.disk)|
      ensures r == Success ==> newguy != null && Has(newguy) && table == old(table)[newguy.ino := newguy]
      ensures r == Success && newguy.ino in old(table) ==> newguy == old(table)[newguy.ino]
      ensures r == Success && name in old(View()).dir ==>
                newguy.ino == old(View()).dir[name] && View() == Grabbed(old(View()), newguy.ino)
      ensures r == Success && name !in old(View()).dir ==>
                && newguy.ino !in old(View()).files && newguy.ino !in old(View()).refs
                && View() == Created(old(View()), newguy.ino).(dir := old(View()).dir[name := newguy.ino])
    {
      hide Mirrors, TableOf, Table, FsOkBut, Core, Volume.Valid, Dir, FileView, Bindings, Created, Grabbed, Released,
        Spent, LacksSpace, RootSame;
      ghost var fs := State();
      FsParts(fs, 0, 0);
      Split(dir);
      newguy := null;
      var found, ino, slot, emptyslot := FindName(dir, name);
      if found && excl {
        return Err(EEXIST), null;
      }
      if found {
        NamedInode(fs, slot, name);
        var l := Grab(ino, memory);
        if l.NoMemory? {
          return Err(ENOMEM), null;
        }
        return Success, l.sv;
      }
      var sv: SfsVnode?;
      vol.AllInVolume();
      r, sv := MakeObj(memory);
      ghost var gs := State();
      if r != Success {
        if r == Err(ENOSPC) {
          FullLacks(fs);
        }
        return;
      }
      CreatedParts(ViewOf(fs), sv.ino);
      NothingCharged(fs, sv.ino, vol.owner);
      LacksTaken(fs, gs);
      r := LinkNew(dir, name, sv, ViewOf(fs));
      newguy := sv;
      if r == Success {
        SpentTaken(fs, gs, State());
      }
    }

    /** The rest of sfs_creat: the new file gets its name, or goes again. */
    method LinkNew(dir: SfsVnode, name: Name, sv: SfsVnode, ghost v: View) returns (r: Result)
      requires Valid() && Has(dir) && dir.ino == ROOT_LOCATION && IsName(name) && Has(sv) && sv.ino != dir.ino
      requires State().IsInode(sv.ino) && sv.inode.linkcount == 0
      requires sv.ino !in v.files && sv.ino !in v.refs && View() == Created(v, sv.ino)
      requires name !in View().dir && forall b | b in vol.owner :: !ChargedTo(vol.owner[b], sv.ino)
      modifies this, vol, vol.freemap.v, dir, sv
      ensures Valid() && r in {Success, Err(ENAMETOOLONG), Err(ENOSPC), Undefined}
      ensures r.Err? ==> View() == v
      ensures r == Undefined ==> DirFull(old(Dir(State()))) && View() == Created(v, sv.ino)
      ensures DirFull(old(Dir(State()))) ==> r != Success
      ensures r == Err(ENOSPC) ==> FullBut(sv.ino) && !HasFree(old(Dir(State())))
      ensures |name| + 1 <= NAMELEN && !DirFull(old(Dir(State()))) ==>
                (r == Err(ENOSPC) <==> LacksSpace(old(State()), 0))
      ensures r == Success ==>
                Core(State()) && Spent(old(State()), State(), 0) && table == old(table)
                && vnodes == old(vnodes)
      ensures r == Success ==> |Dir(State())| <= |old(Dir(State()))| + 1
      ensures |vol.disk| == |old(vol.disk)|
      ensures r == Err(ENAMETOOLONG) <==> |name| + 1 > NAMELEN
      ensures r == Success ==> Has(sv) && View() == Created(v, sv.ino).(dir := v.dir[name := sv.ino])
    {
      hide Mirrors, TableOf, Table, FsOkBut, Core, Volume.Valid, Dir, FileView, Bindings, Created, Released,
        OwnersGrow, OthersKept, DirFull, HasFree, SameBut, Spent, LacksSpace, RootSame;
      ghost var fs := State();
      FsParts(fs, 0, 0);
      Split(sv);
      NamedCount(fs, sv.ino);
      CreatedParts(v, sv.ino);
      ghost var owner := vol.owner;
      var slot: nat;
      r, slot := DirLink(dir, name, sv.ino);
      if r == Success {
        ghost var hs := State();
        NoShorter(Dir(fs), Dir(hs), slot);
        Relink(sv, 1);
        FsParts(State(), 0, 0);
        SpentSame(fs, hs, State(), 0);
      } else if r != Undefined {
        FsParts(State(), 0, 0);
        ghost var linked := vol.owner;
        DecRef(sv);
        FsParts(State(), 0, 0);
        CreatedReleased(v, sv.ino);
        StillFull(owner, linked, vol.owner, |vol.disk|, sv.ino);
      }
    }

    /** sfs_link: a further name for the file `f`. The link count has 16 bits, and nothing keeps it from wrapping. */
    method Link(dir: SfsVnode, name: Name, f: SfsVnode) returns (r: Result)
      requires Valid() && Has(dir) && dir.ino == ROOT_LOCATION && IsName(name) && Has(f)
      modifies vol, vol.freemap.v, dir, f
      ensures r in {Success, Err(EEXIST), Err(ENAMETOOLONG), Err(ENOSPC), Undefined}
      ensures r == Err(EEXIST) <==> name in old(View()).dir
      ensures r == Err(ENAMETOOLONG) <==> name !in old(View()).dir && |name| + 1 > NAMELEN
      ensures r != Success ==> Valid() && View() == old(View())
      ensures r == Undefined ==> DirFull(old(Dir(State())))
      ensures r == Err(ENOSPC) ==> VolumeFull() && !HasFree(old(Dir(State())))
      ensures name !in old(View()).dir && |name| + 1 <= NAMELEN && !DirFull(old(Dir(State()))) ==>
                (r == Err(ENOSPC) <==> LacksSpace(old(State()), 0))
      ensures DirFull(old(Dir(State()))) ==> r != Success
      ensures |vol.disk| == |old(vol.disk)|
      ensures r == Success ==> f.inode.linkcount == OneMore(old(f.inode.linkcount))
      ensures r == Success ==> (Valid() <==> old(f.inode.linkcount) + 1 < HALF_LIMIT)
      ensures r == Success && Valid() ==>
                && View() == old(View()).(dir := old(View()).dir[name := f.ino])
                && |old(Dir(State()))| <= |Dir(State())| <= |old(Dir(State()))| + 1
                && Spent(old(State()), State(), 0)
    {
      hide Mirrors, TableOf, Table, FsOkBut, Core, Volume.Valid, Dir, FileView, Bindings, OwnersGrow, HasFree,
        SameBut, OneMore, Spent, LacksSpace, RootSame;
      ghost var fs := State();
      FsParts(fs, 0, 0);
      Split(f);
      TableInode(State(), f.ino);
      assert dir.ino == f.ino ==> dir == f;
      InodeRange(State(), f.ino);
      OneMoreIs(f.inode.linkcount);
      ghost var es := Dir(State());
      var slot: nat;
      r, slot := DirLink(dir, name, f.ino);
      if r == Success {
        Split(f);
        FsParts(State(), f.ino, 1);
        LinkRoom(State(), f.ino, 1);
        NoShorter(es, Dir(State()), slot);
        if f.inode.linkcount + 1 < HALF_LIMIT {
          ghost var gs := State();
          Relink(f, 1);
          SpentSame(fs, gs, State(), 0);
        } else {
          WrapCount(f, slot);
        }
      }
    }

    /** The link count goes from its largest value to zero. */
    method WrapCount(f: SfsVnode, ghost slot: nat)
      requires ValidBut(f.ino, 1) && Has(f) && f.inode.linkcount + 1 == HALF_LIMIT
      requires slot < |Dir(State())| && Dir(State())[slot].Live() && Dir(State())[slot].ino == f.ino
      modifies f`inode, f`dirty
      ensures f.inode == old(f.inode).(linkcount := OneMore(old(f.inode.linkcount))) && f.inode.linkcount == 0
      ensures !Valid()
    {
      hide Mirrors, TableOf, Table, FsOkBut, Core, Volume.Valid, Dir;
      ghost var fs := State();
      FsParts(fs, f.ino, 1);
      Split(f);
      OneMoreIs(f.inode.linkcount);
      f.inode := f.inode.(linkcount := OneMore(f.inode.linkcount));
      f.dirty := true;
      Split(f);
      WrapBreaks(fs, State(), f.ino, slot);
    }

    /** The end of sfs_remove and of sfs_rename: the slot is cleared, and link count and reference are given up. */
    method DropName(dir: SfsVnode, sv: SfsVnode, slot: nat, ghost name: Name)
      requires Valid() && Has(dir) && dir.ino == ROOT_LOCATION && Has(sv) && Core(State())
      requires Binds(Dir(State()), slot, name) && Dir(State())[slot].ino == sv.ino
      modifies this, vol, vol.freemap.v, dir, sv
      ensures Valid() && Core(State())
      ensures var v := old(View()).(dir := old(View()).dir - {name}); sv.ino in v.refs && View() == Released(v, sv.ino)
    {
      hide Mirrors, TableOf, Table, FsOkBut, Core, Volume.Valid, Dir, FileView, Bindings, Released, OthersKept;
      DirUnlink(dir, slot);
      FsParts(State(), sv.ino, -1);
      Split(sv);
      LinkRoom(State(), sv.ino, -1);
      Relink(sv, -1);
      FsParts(State(), 0, 0);
      DecRef(sv);
      FsParts(State(), 0, 0);
    }

    /** sfs_remove: the name goes, and with it the file if that was its last name and nobody holds it. */
    method Remove(dir: SfsVnode, name: Name, memory: bool) returns (r: Result)
      requires Valid() && Has(dir) && dir.ino == ROOT_LOCATION && IsName(name)
      modifies this, vol, vol.freemap.v, vnodes
      ensures Valid() && r in {Success, Err(ENOENT), Err(ENOMEM)}
      ensures r == Err(ENOENT) <==> name !in old(View()).dir
      ensures r == Err(ENOMEM) ==> !memory
      ensures r != Success ==> View() == old(View())
      ensures r == Success ==> View() == Removed(old(View()), name)
    {
      hide Mirrors, TableOf, Table, FsOkBut, Core, Volume.Valid, Dir, FileView, Bindings, Released, Grabbed, Removed,
        OthersKept;
      ghost var fs := State();
      FsParts(fs, 0, 0);
      Split(dir);
      ghost var v := View();
      var victim: SfsVnode?, slot: nat;
      r, victim, slot := LookOnce(dir, name, memory);
      if r != Success {
        return;
      }
      FsParts(State(), 0, 0);
      DropName(dir, victim, slot, name);
      FsParts(State(), 0, 0);
      RemovedView(fs, v, name, victim.ino);
    }

    /** The rest of sfs_rename, once the old name is found. */
    method MoveName(dir: SfsVnode, g1: SfsVnode, slot1: nat, n1: Name, n2: Name, ghost v: View) returns (r: Result)
      requires Valid() && Has(dir) && dir.ino == ROOT_LOCATION && IsName(n2) && Has(g1) && g1.ino != dir.ino
      requires Binds(Dir(State()), slot1, n1) && Dir(State())[slot1].ino == g1.ino
      requires View() == Grabbed(v, g1.ino) && n1 in v.dir && v.dir[n1] == g1.ino
      requires g1.ino in v.refs ==> v.refs[g1.ino] > 0
      modifies this, vol, vol.freemap.v, dir, g1
      ensures r in {Success, Err(EEXIST), Err(ENAMETOOLONG), Err(ENOSPC), Undefined, Panic}
      ensures Shape() && Core(State()) && (r != Panic ==> Valid())
      ensures r == Err(EEXIST) <==> n2 in v.dir
      ensures r == Err(ENAMETOOLONG) <==> n2 !in v.dir && |n2| + 1 > NAMELEN
      ensures r.Err? ==> View() == v
      ensures r == Err(ENOSPC) ==> VolumeFull() && !HasFree(old(Dir(State())))
      ensures n2 !in v.dir && |n2| + 1 <= NAMELEN && !DirFull(old(Dir(State()))) ==>
                (r == Err(ENOSPC) <==> LacksSpace(old(State()), 0))
      ensures r == Undefined ==> DirFull(old(Dir(State()))) && View() == Grabbed(v, g1.ino)
      ensures DirFull(old(Dir(State()))) ==> r != Success && r != Panic
      ensures r == Panic || r == Success ==> (r == Panic <==> old(g1.inode.linkcount) + 1 == HALF_LIMIT)
      ensures r == Success ==> View() == v.(dir := v.dir[n2 := g1.ino] - {n1})
    {
      hide Mirrors, TableOf, Table, FsOkBut, Core, Volume.Valid, Dir, FileView, Bindings, Released, Grabbed, SameBut,
        OthersKept, OwnersGrow, DirFull, HasFree, Spent, LacksSpace;
      FsParts(State(), 0, 0);
      InodeNumbers(State(), g1.ino, slot1);
      GrabbedDir(v, g1.ino);
      ghost var es := Dir(State());
      var slot2: nat;
      NamedInode(State(), slot1, n1);
      Split(g1);
      r, slot2 := DirLink(dir, n2, g1.ino);
      if r != Success {
        FsParts(State(), 0, 0);
        if r != Undefined {
          DecRef(g1);
          FsParts(State(), 0, 0);
          BackAgain(v, v.dir, g1.ino, n1);
        }
        return;
      }
      FsParts(State(), g1.ino, 1);
      OldSlotKept(es, Dir(State()), slot1, slot2);
      r := FinishMove(dir, g1, slot1, n1, n2, v);
    }

    /**
     * The rest of sfs_rename, once both names are there: the link count goes up for a moment. If that makes it wrap,
     * the assertion before it goes down again fails; what has happened to the volume by then is not modelled.
     */
    method FinishMove(dir: SfsVnode, g1: SfsVnode, slot1: nat, n1: Name, ghost n2: Name, ghost v: View)
      returns (r: Result)
      requires ValidBut(g1.ino, 1) && Has(dir) && dir.ino == ROOT_LOCATION && Has(g1) && g1.ino != dir.ino
      requires Binds(Dir(State()), slot1, n1) && Dir(State())[slot1].ino == g1.ino && n1 != n2
      requires View() == Grabbed(v, g1.ino).(dir := v.dir[n2 := g1.ino])
      requires g1.ino in v.refs ==> v.refs[g1.ino] > 0
      modifies this, vol, vol.freemap.v, dir, g1
      ensures Shape() && Core(State())
      ensures r == if old(g1.inode.linkcount) + 1 == HALF_LIMIT then Panic else Success
      ensures r == Success ==> Valid() && View() == v.(dir := v.dir[n2 := g1.ino] - {n1})
    {
      hide Mirrors, TableOf, Table, FsOkBut, Core, Volume.Valid, Dir, FileView, Bindings, Grabbed, Released;
      FsParts(State(), g1.ino, 1);
      Split(g1);
      LinkRoom(State(), g1.ino, 1);
      if g1.inode.linkcount + 1 == HALF_LIMIT {
        return Panic;
      }
      Relink(g1, 1);
      FsParts(State(), 0, 0);
      DropName(dir, g1, slot1, n1);
      BackAgain(v, v.dir[n2 := g1.ino] - {n1}, g1.ino, n2);
      r := Success;
    }

    /** sfs_rename: moves one name. It fails if the new name is taken, even by the old name itself. */
    method Rename(dir: SfsVnode, n1: Name, n2: Name, memory: bool) returns (r: Result)
      requires Valid() && Has(dir) && dir.ino == ROOT_LOCATION && IsName(n1) && IsName(n2)
      modifies this, vol, vol.freemap.v, vnodes
      ensures r in {Success, Err(ENOENT), Err(EEXIST), Err(ENAMETOOLONG), Err(ENOSPC), Err(ENOMEM), Undefined, Panic}
      ensures Shape() && Core(State()) && (r != Panic ==> Valid())
      ensures r == Err(ENOENT) <==> n1 !in old(View()).dir
      ensures r == Err(ENOMEM) ==> !memory && old(View()).dir[n1] !in old(table)
      ensures r == Err(EEXIST) ==> n2 in old(View()).dir
      ensures r == Err(ENAMETOOLONG) ==> n2 !in old(View()).dir && |n2| + 1 > NAMELEN
      ensures r == Err(ENOSPC) ==> VolumeFull() && !HasFree(old(Dir(State())))
      ensures r.Err? ==> View() == old(View())
      ensures r == Undefined ==>
                DirFull(old(Dir(State()))) && n1 in old(View()).dir
                    && View() == Grabbed(old(View()), old(View()).dir[n1])
      ensures r == Success ==> n1 in old(View()).dir && !PanicsOnRename(old(State()), old(View()).dir[n1])
      ensures r == Success ==> n2 !in old(View()).dir && |n2| + 1 <= NAMELEN && !DirFull(old(Dir(State())))
      ensures r == Success ==>
                View() == old(View()).(dir := old(View()).dir[n2 := old(View()).dir[n1]] - {n1})
      ensures r == Panic ==> n1 in old(View()).dir && PanicsOnRename(old(State()), old(View()).dir[n1])
      ensures n1 in old(View()).dir && old(View()).dir[n1] == ROOT_LOCATION ==>
                r == Panic && View() == Grabbed(old(View()), ROOT_LOCATION)
      ensures memory && n1 in old(View()).dir && n2 !in old(View()).dir && |n2| + 1 <= NAMELEN &&
              !DirFull(old(Dir(State()))) && old(View()).dir[n1] != ROOT_LOCATION ==>
                r == if LacksSpace(old(State()), 0) then Err(ENOSPC)
                     else if PanicsOnRename(old(State()), old(View()).dir[n1]) then Panic else Success
    {
      hide Mirrors, TableOf, Table, FsOkBut, Core, Volume.Valid, Dir, FileView, Bindings, Released, Grabbed,
        OthersKept, OwnersGrow, HasFree, PanicsOnRename, LacksSpace, RootSame;
      ghost var fs := State();
      FsParts(fs, 0, 0);
      Split(dir);
      ghost var v := View();
      var g1: SfsVnode?, slot1: nat;
      r, g1, slot1 := LookOnce(dir, n1, memory);
      FsParts(State(), 0, 0);
      if r != Success {
        return;
      }
      LacksSame(fs, State());
      Split(g1);
      RenameType(State(), g1.ino);
      if g1.inode.typ != TYPE_FILE {
        PanicCases(fs, g1.ino, slot1);
        return Panic;
      }
      RefsPositive(fs, g1.ino);
      PanicCases(fs, g1.ino, slot1);
      r := MoveName(dir, g1, slot1, n1, n2, v);
    }

    // ----- the bytes of a file that somebody holds

    /** sfs_read through a vnode of this table: it delivers bytes of the file, and nobody sees a difference. */
    method ReadFile(sv: SfsVnode, uio: Uio) returns (r: IoResult)
      requires Valid() && Has(sv) && sv.ino != ROOT_LOCATION
      requires uio.Valid() && !uio.write && uio.offset + uio.resid < OFF_LIMIT
      modifies vol, vol.freemap.v, sv, uio
      ensures Valid() && View() == old(View()) && uio.Valid() && old(uio.base) <= uio.base
      ensures sv.ino in View().files
      ensures Delivers(View().files[sv.ino].bytes, Read(old(uio.offset), old(uio.resid),
              uio.mem[old(uio.base)..uio.base], r.Done?))
    {
      hide Mirrors, TableOf, Table, FsOkBut, Core, Volume.Valid, Dir, FileView, FileStep, Tidy, Smooth, Explained,
        Stops, TreeOk, Delivers, Called, Contents, TailZero;
      ghost var fs, off, want, base := State(), uio.offset, uio.resid, uio.base;
      Split(sv);
      VnodeReady(fs, sv.ino);
      r := SfsRead(vol, sv, uio);
      Split(sv);
      vol.AllInVolume();
      ghost var op := Read(off, want, uio.mem[base..uio.base], r.Done?);
      CallOfStep(fs, State(), sv.ino, op);
      CallFs(fs, State(), sv.ino, op, 0, 0);
      FsParts(State(), 0, 0);
      ReadView(fs, State(), sv.ino, op);
    }

    /** sfs_write through a vnode of this table: no other file and no name is touched. */
    method WriteFile(sv: SfsVnode, uio: Uio) returns (r: IoResult)
      requires Valid() && Has(sv) && sv.ino != ROOT_LOCATION
      requires uio.Valid() && uio.write && uio.offset + uio.resid < OFF_LIMIT
      modifies vol, vol.freemap.v, sv, uio
      ensures Valid() && uio.Valid() && (r.Done? ==> uio.offset == old(uio.offset + uio.resid))
      ensures WroteFile(old(State()), State(), sv.ino, old(uio.offset), old(uio.Next(uio.resid)),
                        uio.offset - old(uio.offset))
      ensures WriteOutcome(old(vol.Now(sv)), vol.Now(sv), sv.ino, old(uio.Now()), uio.Now(), r)
    {
      hide Mirrors, TableOf, Table, FsOkBut, Core, Volume.Valid, Dir, FileView, FileStep, Tidy, Smooth, Explained,
        Stops, TreeOk, Called, Contents, TailZero, WriteAt, WroteFile, WriteOutcome;
      ghost var fs, off, want := State(), uio.offset, uio.Next(uio.resid);
      Split(sv);
      VnodeReady(fs, sv.ino);
      r := SfsWrite(vol, sv, uio);
      Split(sv);
      vol.AllInVolume();
      ghost var op := Write(off, want, uio.offset - off, r.Done?);
      WriteSize(fs.Of(sv.ino), vol.Now(sv), sv.ino, op);
      CallOfStep(fs, State(), sv.ino, op);
      CallFs(fs, State(), sv.ino, op, 0, 0);
      FsParts(State(), 0, 0);
      WriteView(fs, State(), sv.ino, op);
    }
  }

  lemma PanicCases(fs: Fs, ino: nat, slot: nat)
    requires FsOk(fs) && Core(fs) && slot < |Dir(fs)| && Dir(fs)[slot].Live() && Dir(fs)[slot].ino == ino
    ensures fs.IsInode(ino) && ino < |fs.disk| && fs.InodeOf(ino).Shape()
    ensures PanicsOnRename(fs, ino) <==> ino == ROOT_LOCATION || fs.InodeOf(ino).linkcount + 1 == HALF_LIMIT
  {
    hide Dir;
    InodeNumbers(fs, ino, slot);
    InodeOkAt(fs, ino);
  }

  /** The link count of a file is the number of its names. */
  lemma CountIsNames(fs: Fs, ino: nat)
    requires FsOk(fs) && Core(fs) && fs.IsInode(ino) && ino != ROOT_LOCATION
    ensures ino < |fs.disk| && fs.InodeOf(ino).linkcount == |NamesOf(ViewOf(fs).dir, ino)|
  {
    hide Core, Dir, InodeOk, FileView, Dense;
    RootOk(fs);
    UniqueDir(fs);
    LinksAreNames(Dir(fs), ino);
  }

  /** A link count that is one off has room to be put right, but for its width. */
  lemma LinkRoom(fs: Fs, ino: nat, d: int)
    requires FsOkBut(fs, ino, d) && ino in fs.table
    ensures 0 <= fs.table[ino].inode.linkcount + d && fs.table[ino].inode.linkcount < HALF_LIMIT
  {
    hide Dir, Links;
    TableInode(fs, ino);
    InodeRange(fs, ino);
  }

  lemma VnodeReady(fs: Fs, ino: nat)
    requires FsOk(fs) && ino in fs.table
    ensures Core(fs) && ino < |fs.disk| && fs.Of(ino).Ok(ino) && InRange(fs.InodeOf(ino)) && fs.InodeOf(ino).Shape()
  {
    hide Dir, TableOk, InodesOk;
    TableInode(fs, ino);
    InodeRange(fs, ino);
    InodeOkAt(fs, ino);
  }

  lemma CallOfStep(fs: Fs, gs: Fs, ino: nat, op: FileOp)
    requires ino in fs.table && ino in gs.table && gs.table == fs.table[ino := gs.table[ino]]
    requires gs.table[ino].refcount == fs.table[ino].refcount && gs.table[ino].inode.blocks < WORD_LIMIT
    requires FileStep(fs.Of(ino), gs.Of(ino), ino, op) && InRange(fs.InodeOf(ino))
    requires op.Read? || (op.Write? && gs.table[ino].inode.size < OFF_LIMIT)
    ensures Called(fs, gs, ino, op)
  {
    hide TreeOk;
  }

  lemma WriteSize(a: Snap, b: Snap, ino: nat, op: FileOp)
    requires FileStep(a, b, ino, op) && op.Write? && a.inode.size < OFF_LIMIT && op.off + op.sent < OFF_LIMIT
    ensures b.inode.size < OFF_LIMIT
    ensures op.done ==> op.sent == |op.data|
  {
    hide TreeOk;
  }

  lemma ReadView(fs: Fs, gs: Fs, ino: nat, op: FileOp)
    requires Core(fs) && Core(gs) && op.Read? && Called(fs, gs, ino, op) && ino in FileView(fs) && ino < |gs.disk|
    requires gs.InodeOf(ino).Shape() && FileView(gs) == FileView(fs)[ino := DataOf(gs.Of(ino))]
    ensures FileView(gs) == FileView(fs) && Delivers(FileView(fs)[ino].bytes, op)
  {
    hide Core, FileView, TreeOk, OnlyFile, Delivers;
    FilesAt(fs, ino);
    var a, b := fs.Of(ino), gs.Of(ino);
    ReadDelivers(a, b, ino, op);
    assert FileView(fs)[ino := FileView(fs)[ino]] == FileView(fs);
  }

  lemma ReadDelivers(a: Snap, b: Snap, ino: nat, op: FileOp)
    requires FileStep(a, b, ino, op) && op.Read?
    ensures DataOf(b) == DataOf(a) && Delivers(Contents(a), op)
  {
    hide TreeOk, OnlyFile, ByteAt;
    ReadContents(a, op.off, |op.got|);
    SameData(a, b);
  }

  /** The bytes of a file after `data` was put at `off`: what a gap before `off` holds is not said. */
  predicate Overwritten(f: seq<byte>, g: seq<byte>, off: nat, data: seq<byte>) {
    && |g| == Max(|f|, off + |data|)
    && forall i: nat | i < |g| ::
         && (off <= i < off + |data| ==> g[i] == data[i - off])
         && (i < |f| && !(off <= i < off + |data|) ==> g[i] == f[i])
  }

  lemma WriteOverwrites(a: Snap, b: Snap, off: nat, data: seq<byte>)
    requires a.inode.Shape() && b.inode.Shape() && Wrote(a, b, off, data)
    requires b.inode.size == Max(a.inode.size, off + |data|)
    ensures Overwritten(Contents(a), Contents(b), off, data)
  {
    hide ByteAt;
  }

  /**
   * The first `sent` bytes of `data` went into file `ino` at `off`, and nothing else changed for anybody; a gap
   * before it is filled with zeros, provided there were zeros behind the end of the file.
   */
  ghost predicate WroteFile(fs: Fs, gs: Fs, ino: nat, off: nat, data: seq<byte>, sent: int) {
    && 0 <= sent <= |data|
    && Core(fs) && Core(gs) && ino in FileView(fs) && ino in FileView(gs) && ino in fs.table && ino in gs.table
    && ViewOf(gs) == ViewOf(fs).(files := FileView(fs)[ino := FileView(gs)[ino]])
    && Overwritten(FileView(fs)[ino].bytes, FileView(gs)[ino].bytes, off, data[..sent])
    && (FileView(fs)[ino].clean ==>
          FileView(gs)[ino] == FileData(WriteAt(FileView(fs)[ino].bytes, off, data[..sent]), true))
  }

  lemma WriteView(fs: Fs, gs: Fs, ino: nat, op: FileOp)
    requires Core(fs) && Core(gs) && op.Write? && Called(fs, gs, ino, op) && ino in FileView(fs) && ino < |gs.disk|
    requires gs.InodeOf(ino).Shape() && FileView(gs) == FileView(fs)[ino := DataOf(gs.Of(ino))]
    requires Dir(gs) == Dir(fs) && Refs(gs) == Refs(fs)
    ensures WroteFile(fs, gs, ino, op.off, op.data, op.sent)
  {
    hide Core, FileView, Dir, Refs, TreeOk, OnlyFile, TailZero, WriteAt, Contents, Overwritten, Wrote;
    FilesAt(fs, ino);
    WriteOverwrites(fs.Of(ino), gs.Of(ino), op.off, op.data[..op.sent]);
    if TailZero(fs.Of(ino)) {
      WriteContents(fs.Of(ino), gs.Of(ino), op.off, op.data[..op.sent]);
    }
  }

  lemma InodeNumbers(fs: Fs, ino: nat, slot: nat)
    requires FsOk(fs) && Core(fs) && slot < |Dir(fs)| && Dir(fs)[slot].Live() && Dir(fs)[slot].ino == ino
    ensures fs.IsInode(ino)
  {
    UniqueDir(fs);
  }

  lemma GrabbedDir(v: View, ino: nat)
    ensures Grabbed(v, ino).dir == v.dir
  {
  }

  lemma OldSlotKept(es: seq<Entry>, fs: seq<Entry>, slot1: nat, slot2: nat)
    requires SameBut(es, fs, slot2) && slot1 < |es| && es[slot1].Live() && (slot2 < |es| ==> !es[slot2].Live())
    ensures slot1 < |fs| && fs[slot1] == es[slot1]
  {
  }

  lemma RefsPositive(fs: Fs, ino: nat)
    requires FsOk(fs) && Core(fs)
    ensures ino in ViewOf(fs).refs ==> ViewOf(fs).refs[ino] > 0
  {
    hide InodesOk, Dir, FileView;
  }

  /** A reference taken and given up again, on a file that has a name at the end. */
  lemma BackAgain(v: View, dir: map<Name, nat>, ino: nat, name: Name)
    requires name in dir && dir[name] == ino && (ino in v.refs ==> v.refs[ino] > 0)
    ensures ino in Grabbed(v, ino).(dir := dir).refs
    ensures Released(Grabbed(v, ino).(dir := dir), ino) == v.(dir := dir)
  {
  }

  lemma CreatedReleased(v: View, ino: nat)
    requires ino !in v.files && ino !in v.refs && !Named(Created(v, ino), ino)
    ensures ino in Created(v, ino).refs && Released(Created(v, ino), ino) == v
  {
  }

  lemma CreatedParts(v: View, ino: nat)
    ensures Created(v, ino).dir == v.dir && ino in Created(v, ino).refs
  {
  }

  /** The view without a name: the file goes if that was its last one and nobody refers to it. */
  ghost function Removed(v: View, name: Name): View
    requires name in v.dir
  {
    var w := v.(dir := v.dir - {name});
    if v.dir[name] in v.refs then w else Unloaded(w, v.dir[name])
  }

  lemma RemovedView(fs: Fs, v: View, name: Name, ino: nat)
    requires FsOk(fs) && Core(fs) && v == ViewOf(fs) && name in v.dir && v.dir[name] == ino
    ensures var w := Grabbed(v, ino).(dir := v.dir - {name}); ino in w.refs && Released(w, ino) == Removed(v, name)
  {
    hide Core, FsOkBut, Dir, FileView, Refs;
    RefsPositive(fs, ino);
  }

  /** A link count that wrapped around to zero no longer counts the names. */
  lemma WrapBreaks(fs: Fs, gs: Fs, ino: nat, slot: nat)
    requires FsOkBut(fs, ino, 1) && Core(fs) && Retouched(fs, gs, ino) && ino in fs.table
    requires gs.table[ino].inode == fs.table[ino].inode.(linkcount := 0)
    requires slot < |Dir(fs)| && Dir(fs)[slot].Live() && Dir(fs)[slot].ino == ino
    ensures !FsOk(gs)
  {
    hide FileView, Dir, Core, FsOkBut;
    if FsOk(gs) {
      FsParts(gs, 0, 0);
      WrappedDir(fs, gs, ino);
      NamedInode(gs, slot, Dir(gs)[slot].name);
    }
  }

  lemma WrappedDir(fs: Fs, gs: Fs, ino: nat)
    requires Core(fs) && Core(gs) && Retouched(fs, gs, ino) && ino in fs.table
    requires gs.table[ino].inode == fs.table[ino].inode.(linkcount := 0)
    ensures Dir(gs) == Dir(fs)
  {
    hide InodesOk, TableOk;
    RootOk(fs);
    RootOk(gs);
    InodeRange(fs, ROOT_LOCATION);
    InodeRange(gs, ROOT_LOCATION);
    SameRootPointers(fs, gs);
    SameByteContents(fs.Of(ROOT_LOCATION), gs.Of(ROOT_LOCATION));
  }

  lemma SameRootPointers(fs: Fs, gs: Fs)
    requires gs.disk == fs.disk && ROOT_LOCATION < |fs.disk| && fs.InodeOf(ROOT_LOCATION).Shape()
    requires gs.InodeOf(ROOT_LOCATION).Shape() && SamePointers(fs.InodeOf(ROOT_LOCATION), gs.InodeOf(ROOT_LOCATION))
    ensures forall s | ValidSlot(s) :: fs.Of(ROOT_LOCATION).At(s) == gs.Of(ROOT_LOCATION).At(s)
  {
    forall s | ValidSlot(s)
      ensures fs.Of(ROOT_LOCATION).At(s) == gs.Of(ROOT_LOCATION).At(s)
    {
      SamePtr(ImageOf(fs.disk), fs.InodeOf(ROOT_LOCATION), gs.InodeOf(ROOT_LOCATION), s);
    }
  }

  lemma RenameType(fs: Fs, ino: nat)
    requires Core(fs) && ino in fs.table
    ensures fs.table[ino].inode.typ == TYPE_FILE <==> ino != ROOT_LOCATION
  {
    TableInode(fs, ino);
  }

  /** The kernel panics when it is asked to rename the root directory, or a file with the largest link count. */
  ghost predicate PanicsOnRename(fs: Fs, ino: nat) {
    ino == ROOT_LOCATION || (Core(fs) && fs.IsInode(ino) && InodeOk(fs, ino)
        && fs.InodeOf(ino).linkcount + 1 == HALF_LIMIT)
  }

  /** A link count is incremented in 16 bits. */
  function OneMore(count: nat): nat {
    (count + 1) % HALF_LIMIT
  }

  lemma OneMoreIs(count: nat)
    requires count < HALF_LIMIT
    ensures OneMore(count) == if count + 1 < HALF_LIMIT then count + 1 else 0
  {
  }

  /** The directory reaches as far as the index arithmetic does, and every entry of it is in use. */
  predicate DirFull(es: seq<Entry>) {
    FAULTBLOCK * BLOCKSIZE <= |es| * DIRENT && !HasFree(es)
  }

  predicate HasFree(es: seq<Entry>) {
    exists k: nat | k < |es| :: !es[k].Live()
  }

  /** Blocks that are neither the inode nor charged to the file of that inode keep their roles. */
  ghost predicate OthersKept(o: Owner, o': Owner, ino: nat) {
    forall b | b in o && b != ino && !ChargedTo(o[b], ino) :: b in o' && o'[b] == o[b]
  }

  /** A full volume of which one inode without blocks is given back. */
  lemma StillFull(o: Owner, o': Owner, o'': Owner, n: nat, ino: nat)
    requires OwnersGrow(o, o', ROOT_LOCATION) && ino != ROOT_LOCATION && OthersKept(o', o'', ino)
    requires forall b | b in o :: !ChargedTo(o[b], ino)
    ensures forall x: nat | x in o' && x < n && x != ino :: x in o''
  {
  }

  /** No block is charged to a file that did not exist. */
  lemma NothingCharged(fs: Fs, ino: nat, o: Owner)
    requires Core(fs) && !fs.IsInode(ino) && o == fs.owner[ino := InodeBlock]
    ensures forall b | b in o :: !ChargedTo(o[b], ino)
  {
  }

  lemma SameKeepsOthers(o: Owner, ino: nat)
    ensures OthersKept(o, o, ino)
  {
  }

  lemma OthersKeptTwice(o: Owner, o': Owner, o'': Owner, ino: nat)
    requires (o' == o || OthersKept(o, o', ino)) && OthersKept(o', o'', ino)
    ensures OthersKept(o, o'', ino)
  {
  }

  /** No block changed its role, and the new ones are charged to file `ino`. */
  ghost predicate OwnersGrow(o: Owner, o': Owner, ino: nat) {
    && (forall b | b in o :: b in o' && o'[b] == o[b])
    && (forall b | b in o' && b !in o :: ChargedTo(o'[b], ino))
  }

  lemma StepGrows(a: Snap, b: Snap, ino: nat, op: FileOp)
    requires FileStep(a, b, ino, op) && op.Write?
    ensures |b.disk| == |a.disk| && OwnersGrow(a.owner, b.owner, ino)
  {
    hide TreeOk, KeepsInode, Wrote;
  }

  lemma StepKeepsOthers(fs: Fs, gs: Fs, ino: nat, op: FileOp)
    requires RolesOk(fs) && ino in fs.table && ino in gs.table && FileStep(fs.Of(ino), gs.Of(ino), ino, op)
    ensures |gs.disk| == |fs.disk| && OthersKept(fs.owner, gs.owner, ino)
    ensures gs.Of(ino).inode.linkcount == fs.Of(ino).inode.linkcount
  {
    hide FileStep;
    StepRoles(fs.Of(ino), gs.Of(ino), ino, op);
  }

  lemma ErasedOwners(fs: Fs, gs: Fs, ino: nat)
    requires Erased(fs, gs, ino)
    ensures |gs.disk| == |fs.disk| && OthersKept(fs.owner, gs.owner, ino)
  {
  }

  // ----- the space that the directory needs

  /** The pointers on the way to the block of entry `slot`. */
  function EntryWays(slot: nat): set<Slot> {
    Ways(slot * DIRENT, (slot + 1) * DIRENT)
  }

  /** How many of the pointers the directory lacks; each costs a block when it is filled in. */
  ghost function RootMissing(fs: Fs, ways: set<Slot>): nat
    requires Core(fs)
  {
    RootOk(fs);
    InodeRange(fs, ROOT_LOCATION);
    |Missing(fs.Of(ROOT_LOCATION), ways)|
  }

  lemma RootMissingIs(fs: Fs, ways: set<Slot>)
    requires Core(fs)
    ensures ROOT_LOCATION < |fs.disk| && fs.InodeOf(ROOT_LOCATION).Shape()
    ensures RootMissing(fs, ways) == |Missing(fs.Of(ROOT_LOCATION), ways)|
  {
    hide InodesOk, TableOk;
    RootOk(fs);
    InodeRange(fs, ROOT_LOCATION);
  }

  /** There are fewer free blocks than the directory needs for entry `slot`. */
  ghost predicate TooFull(fs: Fs, slot: nat)
    requires Core(fs)
  {
    |fs.disk| < |fs.owner| + RootMissing(fs, EntryWays(slot))
  }

  lemma TooFullIs(fs: Fs, slot: nat)
    requires Core(fs)
    ensures ROOT_LOCATION < |fs.disk| && fs.InodeOf(ROOT_LOCATION).Shape()
    ensures TooFull(fs, slot) <==>
            |fs.disk| < |fs.owner| + |Missing(fs.Of(ROOT_LOCATION), Ways(slot * DIRENT, slot * DIRENT + DIRENT))|
  {
    hide Core;
    RootMissingIs(fs, EntryWays(slot));
    assert (slot + 1) * DIRENT == slot * DIRENT + DIRENT;
  }

  /** There are fewer free blocks than a new name needs, and `extra` blocks besides. */
  ghost predicate LacksSpace(fs: Fs, extra: nat)
    requires Core(fs)
  {
    |fs.disk| < |fs.owner| + extra + if HasFree(Dir(fs)) then 0 else RootMissing(fs, EntryWays(|Dir(fs)|))
  }

  lemma LacksIs(fs: Fs)
    requires Core(fs)
    ensures HasFree(Dir(fs)) ==> !LacksSpace(fs, 0)
    ensures !HasFree(Dir(fs)) ==> (LacksSpace(fs, 0) <==> TooFull(fs, |Dir(fs)|))
  {
    hide InodesOk, TableOk, Dir, HasFree, RootMissing;
    SubsetSize(fs.owner.Keys, Below(|fs.disk|));
  }

  /** The blocks in use, together with those that the directory needs before it has all of its first `n` blocks. */
  ghost function Reserve(fs: Fs, n: nat): nat
    requires Core(fs)
  {
    |fs.owner| + RootMissing(fs, WaysTo(0, n))
  }

  /** The directory lacks as much as before. */
  ghost predicate RootSame(fs: Fs, gs: Fs)
    requires Core(fs) && Core(gs)
  {
    forall ways: set<Slot> :: RootMissing(gs, ways) == RootMissing(fs, ways)
  }

  lemma RootSameBy(fs: Fs, gs: Fs)
    requires Core(fs) && Core(gs) && ROOT_LOCATION < |fs.disk| && ROOT_LOCATION < |gs.disk|
    requires fs.InodeOf(ROOT_LOCATION).Shape() && gs.InodeOf(ROOT_LOCATION).Shape()
    requires forall s | ValidSlot(s) :: gs.Of(ROOT_LOCATION).At(s) == fs.Of(ROOT_LOCATION).At(s)
    ensures RootSame(fs, gs)
  {
    hide Core, Ptr, RootMissing;
    forall ways: set<Slot>
      ensures RootMissing(gs, ways) == RootMissing(fs, ways)
    {
      RootMissingIs(fs, ways);
      RootMissingIs(gs, ways);
      assert Missing(gs.Of(ROOT_LOCATION), ways) == Missing(fs.Of(ROOT_LOCATION), ways);
    }
  }

  lemma RetouchedRoot(fs: Fs, gs: Fs, ino: nat)
    requires Core(fs) && Core(gs) && Retouched(fs, gs, ino) && fs.IsInode(ino) && ino < |fs.disk|
    requires SamePointers(fs.InodeOf(ino), gs.InodeOf(ino))
    ensures RootSame(fs, gs)
  {
    hide InodesOk, TableOk, Ptr, RootSame, Words;
    RootMissingIs(fs, {});
    RootMissingIs(gs, {});
    forall s | ValidSlot(s)
      ensures gs.Of(ROOT_LOCATION).At(s) == fs.Of(ROOT_LOCATION).At(s)
    {
      SamePtr(ImageOf(fs.disk), fs.InodeOf(ROOT_LOCATION), gs.InodeOf(ROOT_LOCATION), s);
    }
    RootSameBy(fs, gs);
  }

  /** A new inode takes a block, but none of the directory's. */
  lemma TakenRoot(fs: Fs, gs: Fs, b: nat)
    requires Core(fs) && Core(gs) && Taken(fs, gs, b, InodeBlock)
    requires gs.table == fs.table[b := Vnode(FreshInode().(typ := TYPE_FILE), true, 1)]
    ensures RootSame(fs, gs) && |gs.owner| == |fs.owner| + 1
  {
    hide TreeOk, RootSame, Alike, InRange, FreshInode, Ptr;
    TakenCore(fs, gs, b, InodeBlock);
    RootOk(fs);
    RootMissingIs(fs, {});
    RootMissingIs(gs, {});
    var a, c := fs.Of(ROOT_LOCATION), gs.Of(ROOT_LOCATION);
    forall s | ValidSlot(s)
      ensures c.At(s) == a.At(s)
    {
      InodeOkAt(fs, ROOT_LOCATION);
      InodeOkAt(gs, ROOT_LOCATION);
      TakenPointer(fs, gs, b, s);
    }
    RootSameBy(fs, gs);
    assert gs.owner.Keys == fs.owner.Keys + {b};
  }

  lemma TakenPointer(fs: Fs, gs: Fs, b: nat, s: Slot)
    requires Taken(fs, gs, b, InodeBlock) && ROOT_LOCATION < |fs.disk| && ROOT_LOCATION < |gs.disk|
    requires fs.Of(ROOT_LOCATION).Ok(ROOT_LOCATION) && gs.Of(ROOT_LOCATION).Ok(ROOT_LOCATION) && ValidSlot(s)
    requires Alike(fs, gs, ROOT_LOCATION)
    ensures gs.Of(ROOT_LOCATION).At(s) == fs.Of(ROOT_LOCATION).At(s)
  {
    hide Ptr, DataOf;
    if gs.Of(ROOT_LOCATION).At(s) != 0 {
      SlotInVolume(gs.Of(ROOT_LOCATION), ROOT_LOCATION, s);
    }
  }

  lemma SpentSame(fs: Fs, gs: Fs, hs: Fs, k: nat)
    requires Core(fs) && Core(gs) && Core(hs) && Spent(fs, gs, k) && RootSame(gs, hs) && hs.owner == gs.owner
    ensures Spent(fs, hs, k)
  {
    hide Core, Dir, RootMissing, BlockLen;
  }

  /** First a new inode, then a name for it. */
  lemma SpentTaken(fs: Fs, gs: Fs, hs: Fs)
    requires Core(fs) && Core(gs) && Core(hs) && RootSame(fs, gs) && |gs.owner| == |fs.owner| + 1 && Dir(gs) == Dir(fs)
    requires Spent(gs, hs, 0)
    ensures Spent(fs, hs, 1)
  {
    hide Core, Dir, RootMissing, BlockLen;
  }

  lemma LacksTaken(fs: Fs, gs: Fs)
    requires Core(fs) && Core(gs) && RootSame(fs, gs) && |gs.owner| == |fs.owner| + 1 && Dir(gs) == Dir(fs)
    requires |gs.disk| == |fs.disk|
    ensures LacksSpace(gs, 0) <==> LacksSpace(fs, 1)
  {
    hide Core, Dir, RootMissing, HasFree, EntryWays;
  }

  lemma LacksSame(fs: Fs, gs: Fs)
    requires Core(fs) && Core(gs) && RootSame(fs, gs) && gs.owner == fs.owner && gs.disk == fs.disk
             && Dir(gs) == Dir(fs)
    ensures LacksSpace(gs, 0) <==> LacksSpace(fs, 0)
  {
    hide Core, Dir, RootMissing, HasFree, EntryWays;
  }

  lemma FullLacks(fs: Fs)
    requires Core(fs) && forall b: nat | b < |fs.disk| :: b in fs.owner
    ensures LacksSpace(fs, 1)
  {
    hide Core, Dir, RootMissing, HasFree, EntryWays;
    SubsetSize(Below(|fs.disk|), fs.owner.Keys);
  }

  /** A new name took what was set aside for it, and `k` blocks besides. */
  ghost predicate Spent(fs: Fs, gs: Fs, k: nat)
    requires Core(fs) && Core(gs)
  {
    forall n: nat | BlockLen((|Dir(fs)| + 1) * DIRENT) <= n <= FAULTBLOCK :: Reserve(gs, n) == Reserve(fs, n) + k
  }

  /** The write of entry `slot` took `fs` to `gs`, or failed before its first byte. */
  ghost predicate RootIo(fs: Fs, gs: Fs, slot: nat, b: seq<byte>, r: IoResult) {
    && Core(fs) && ROOT_LOCATION in fs.table && |b| == DIRENT && slot <= |Dir(fs)|
    && Called(fs, gs, ROOT_LOCATION, Write(slot * DIRENT, b, if r.Done? then DIRENT else 0, r.Done?))
    && |gs.disk| == |fs.disk| && OwnersGrow(fs.owner, gs.owner, ROOT_LOCATION)
        && (forall x | x in gs.owner :: x < |gs.disk|)
    && (slot < |Dir(fs)| ==> r.Done?)
    && (r.IoFailed? ==> r.e == ENOSPC && forall x: nat | x < |gs.disk| :: x in gs.owner)
    && (r.Fault? ==> FAULTBLOCK * BLOCKSIZE <= slot * DIRENT)
    && (slot * DIRENT < FAULTBLOCK * BLOCKSIZE ==> (r == IoFailed(ENOSPC) <==> TooFull(fs, slot)))
    && Tidy(fs.Of(ROOT_LOCATION), gs.Of(ROOT_LOCATION), (slot + 1) * DIRENT, true)
    && Covers(fs.Of(ROOT_LOCATION), gs.Of(ROOT_LOCATION), slot * DIRENT / BLOCKSIZE, BlockLen((slot + 1) * DIRENT),
        true, r)
  }

  lemma RootIoBy(fs: Fs, gs: Fs, slot: nat, b: seq<byte>, u: UioState, v: UioState, r: IoResult)
    requires FsOk(fs) && Core(fs) && ROOT_LOCATION in fs.table && ROOT_LOCATION in gs.table && |b| == DIRENT
    requires gs.table == fs.table[ROOT_LOCATION := gs.table[ROOT_LOCATION]] && slot <= |Dir(fs)|
    requires gs.table[ROOT_LOCATION].refcount == fs.table[ROOT_LOCATION].refcount
    requires gs.table[ROOT_LOCATION].inode.blocks < WORD_LIMIT
    requires WriteOutcome(fs.Of(ROOT_LOCATION), gs.Of(ROOT_LOCATION), ROOT_LOCATION, u, v, r)
    requires u.offset == slot * DIRENT && u.resid == DIRENT && u.mem == b && u.base == 0
    requires forall x | x in gs.owner :: x < |gs.disk|
    ensures RootIo(fs, gs, slot, b, r)
  {
    hide FsOkBut, Core, Dir, FileStep, Tidy, Smooth, TreeOk, Stops, Called, Explained, OwnersGrow, Covers, Ways,
      Missing, BlockLen, TooFull;
    var off, off' := slot * DIRENT, v.offset;
    assert (slot + 1) * DIRENT == off + DIRENT && u.mem[u.base..u.base + u.resid] == b;
    DirFacts(fs, slot);
    WriteCalled(fs, gs, slot, b, off' - off, r, v.resid);
    StepGrows(fs.Of(ROOT_LOCATION), gs.Of(ROOT_LOCATION), ROOT_LOCATION, Write(off, b, off' - off, r.Done?));
    TooFullIs(fs, slot);
    if !r.Done? {
      WhyFailed(gs.Of(ROOT_LOCATION), off', slot, r);
    }
  }

  lemma RootIoParts(fs: Fs, gs: Fs, slot: nat, b: seq<byte>, r: IoResult)
    requires RootIo(fs, gs, slot, b, r)
    ensures Core(fs) && slot <= |Dir(fs)|
    ensures Called(fs, gs, ROOT_LOCATION, Write(slot * DIRENT, b, if r.Done? then DIRENT else 0, r.Done?))
    ensures |gs.disk| == |fs.disk| && OwnersGrow(fs.owner, gs.owner, ROOT_LOCATION)
            && (forall x | x in gs.owner :: x < |gs.disk|)
    ensures slot < |Dir(fs)| ==> r.Done?
    ensures r.IoFailed? ==> r.e == ENOSPC && forall x: nat | x < |gs.disk| :: x in gs.owner
    ensures r.Fault? ==> FAULTBLOCK * BLOCKSIZE <= slot * DIRENT
    ensures slot * DIRENT < FAULTBLOCK * BLOCKSIZE ==> (r == IoFailed(ENOSPC) <==> TooFull(fs, slot))
  {
    hide Core, Dir, Called, Tidy, Covers, TooFull, OwnersGrow;
  }

  lemma EntrySpent(fs: Fs, gs: Fs, slot: nat, b: seq<byte>, r: IoResult)
    requires Core(fs) && Core(gs) && RootIo(fs, gs, slot, b, r)
    ensures Spent(fs, gs, 0)
  {
    hide Core, Dir, TreeOk, WaysTo, Missing, Fills, Wrote, KeepsInode, Dense, Reserve, RootMissing, BlockLen,
      TooFull, OwnersGrow;
    forall n: nat | BlockLen((|Dir(fs)| + 1) * DIRENT) <= n <= FAULTBLOCK
      ensures Reserve(gs, n) == Reserve(fs, n)
    {
      EntryRange(slot, |Dir(fs)|);
      var lo, hi := slot * DIRENT / BLOCKSIZE, BlockLen((slot + 1) * DIRENT);
      WaysSplit(0, lo, n);
      WaysSplit(lo, hi, n);
      Conserved(fs.Of(ROOT_LOCATION), gs.Of(ROOT_LOCATION), ROOT_LOCATION, WaysTo(lo, hi), r.Done?,
          r == IoFailed(ENOSPC),
                WaysTo(0, n));
      ReserveIs(fs, n);
      ReserveIs(gs, n);
    }
  }

  lemma SpentNothing(fs: Fs)
    requires Core(fs)
    ensures Spent(fs, fs, 0)
  {
    hide Core, Reserve;
  }

  lemma OwnersStay(fs: Fs)
    ensures OwnersGrow(fs.owner, fs.owner, ROOT_LOCATION)
  {
  }

  lemma EntryRange(slot: nat, count: nat)
    requires slot <= count
    ensures slot * DIRENT / BLOCKSIZE <= BlockLen((slot + 1) * DIRENT) <= BlockLen((count + 1) * DIRENT)
  {
  }

  lemma ReserveIs(fs: Fs, n: nat)
    requires Core(fs)
    ensures ROOT_LOCATION < |fs.disk| && fs.InodeOf(ROOT_LOCATION).Shape()
    ensures Reserve(fs, n) == |fs.owner| + |Missing(fs.Of(ROOT_LOCATION), WaysTo(0, n))|
  {
    hide Core;
    RootMissingIs(fs, WaysTo(0, n));
  }

  /** An entry that was written lies below the first block that the index arithmetic cannot reach. */
  lemma PutBelowFault(fs: Fs, gs: Fs, slot: nat, e: Entry)
    requires Core(fs) && DirPut(fs, gs, slot, e)
    ensures Core(gs) && slot * DIRENT < FAULTBLOCK * BLOCKSIZE
  {
    hide Core, FileView, Refs, Dense, EntriesOk, Dir;
    DirSize(gs);
    RootOk(gs);
    InodeRange(gs, ROOT_LOCATION);
    DenseBound(gs.Of(ROOT_LOCATION), gs.InodeOf(ROOT_LOCATION).size);
  }

  /** No entry but that in `slot` has changed. */
  predicate SameBut(es: seq<Entry>, fs: seq<Entry>, slot: nat) {
    |es| <= |fs| <= |es| + 1 && forall k: nat | k < |es| && k != slot :: fs[k] == es[k]
  }

  lemma NoShorter(es: seq<Entry>, fs: seq<Entry>, slot: nat)
    requires SameBut(es, fs, slot)
    ensures |es| <= |fs| <= |es| + 1
  {
  }

  lemma UniqueDir(fs: Fs)
    requires FsOk(fs) && Core(fs)
    ensures Unique(Dir(fs)) && EntriesOk(fs, Dir(fs))
  {
    hide Core, Dir, Dense;
  }

  lemma FoundBinding(es: seq<Entry>, name: Name, found: bool, slot: nat)
    requires Unique(es)
    requires if found then Binds(es, slot, name) else forall k: nat | k < |es| :: !Binds(es, k, name)
    ensures found <==> name in Bindings(es)
    ensures found ==> Bindings(es)[name] == es[slot].ino
  {
    if found {
      BindingAt(es, slot);
    } else if name in Bindings(es) {
      var k := BindingFrom(es, name);
      assert false;
    }
  }

  lemma InodeNumber(fs: Fs, ino: nat)
    requires Core(fs) && fs.IsInode(ino)
    ensures 0 < ino < WORD_LIMIT && ino < |fs.disk|
  {
  }

  lemma NewEntryOk(fs: Fs, slot: nat, e: Entry)
    requires FsOk(fs) && Core(fs) && slot <= |Dir(fs)| && (slot < |Dir(fs)| ==> !Dir(fs)[slot].Live())
    requires e.Live() && fs.IsInode(e.ino) && e.name !in Bindings(Dir(fs))
    ensures EntriesOk(fs, PutEntry(Dir(fs), slot, e))
  {
    hide Core, Dir;
    UniqueDir(fs);
    PutBinds(Dir(fs), slot, e);
  }

  lemma ClearedEntryOk(fs: Fs, slot: nat, e: Entry)
    requires FsOk(fs) && Core(fs) && slot < |Dir(fs)| && Dir(fs)[slot].Live() && !e.Live()
    ensures EntriesOk(fs, PutEntry(Dir(fs), slot, e))
  {
    hide Core, Dir;
    UniqueDir(fs);
    ClearBinds(Dir(fs), slot, e);
  }

  /** A written entry, seen from outside. */
  lemma PutDone(fs: Fs, gs: Fs, slot: nat, e: Entry)
    requires FsOk(fs) && Core(fs) && DirPut(fs, gs, slot, e) && e.Live() && e.name !in Bindings(Dir(fs))
    requires slot < |Dir(fs)| ==> !Dir(fs)[slot].Live()
    ensures FsOkBut(gs, e.ino, 1) && Core(gs) && ViewOf(gs) == ViewOf(fs).(dir := Bindings(Dir(fs))[e.name := e.ino])
    ensures Binds(Dir(gs), slot, e.name) && Dir(gs)[slot] == e
    ensures SameBut(Dir(fs), Dir(gs), slot) && ROOT_LOCATION < |fs.disk| && ROOT_LOCATION < |gs.disk|
    ensures gs.InodeOf(ROOT_LOCATION).linkcount == fs.InodeOf(ROOT_LOCATION).linkcount
  {
    hide Core, Dir, FileView, FsOkBut;
    UniqueDir(fs);
    RootOk(fs);
    RootOk(gs);
    PutLinked(fs, gs, slot, e);
    PutBinds(Dir(fs), slot, e);
  }

  lemma ClearDone(fs: Fs, gs: Fs, slot: nat, e: Entry)
    requires FsOk(fs) && Core(fs) && slot < |Dir(fs)| && DirPut(fs, gs, slot, e) && !e.Live() && Dir(fs)[slot].Live()
    ensures FsOkBut(gs, Dir(fs)[slot].ino, -1) && Core(gs)
    ensures ViewOf(gs) == ViewOf(fs).(dir := Bindings(Dir(fs)) - {Dir(fs)[slot].name})
    ensures ROOT_LOCATION < |fs.disk| && ROOT_LOCATION < |gs.disk|
    ensures gs.InodeOf(ROOT_LOCATION).linkcount == fs.InodeOf(ROOT_LOCATION).linkcount
  {
    hide Core, Dir, FileView, FsOkBut;
    UniqueDir(fs);
    RootOk(fs);
    RootOk(gs);
    ClearLinked(fs, gs, slot, e);
    ClearBinds(Dir(fs), slot, e);
  }

  /** The view with a new, empty file to which one reference is held. */
  function Created(v: View, ino: nat): View {
    v.(files := v.files[ino := FileData([], true)], refs := v.refs[ino := 1])
  }

  lemma CreatedView(fs: Fs, gs: Fs, ino: nat)
    requires Core(fs) && Core(gs) && Dir(gs) == Dir(fs) && FileView(gs) == FileView(fs)[ino := FileData([], true)]
    requires Refs(gs) == Refs(fs)[ino := 1]
    ensures ViewOf(gs) == Created(ViewOf(fs), ino)
  {
    hide Core, Dir, FileView, Refs;
  }

  lemma FreshType()
    ensures FreshInode().typ == TYPE_INVAL && FreshInode().linkcount == 0
  {
  }

  lemma TakenBy(fs: Fs, gs: Fs, b: nat, role: Role)
    requires 0 < b < |fs.disk| && b !in fs.owner && (role == InodeBlock || role == Orphan)
    requires gs.disk == fs.disk[b := ZeroBlock()] && gs.owner == fs.owner[b := role]
    requires gs.freemap.dirty && |gs.freemap.bits| == |fs.freemap.bits|
    ensures Taken(fs, gs, b, role)
  {
  }

  /** The view with one reference to `ino` more. */
  function Grabbed(v: View, ino: nat): View {
    v.(refs := v.refs[ino := (if ino in v.refs then v.refs[ino] else 0) + 1])
  }

  lemma TableMarked(fs: Fs)
    requires Core(fs)
    ensures forall x | x in fs.table :: x in fs.owner
  {
  }

  lemma InodeType(fs: Fs, ino: nat)
    requires Core(fs) && fs.IsInode(ino) && ino < |fs.disk|
    ensures fs.InodeOf(ino).typ in {TYPE_FILE, TYPE_DIR}
  {
    InodeOkAt(fs, ino);
  }

  lemma GrabbedFs(fs: Fs, gs: Fs, ino: nat)
    requires FsOk(fs) && Core(fs) && fs.IsInode(ino) && ino < |fs.disk| && Retouched(fs, gs, ino)
    requires gs.table[ino] == if ino in fs.table then fs.table[ino].(refcount := fs.table[ino].refcount + 1)
                              else Vnode(DecodeInode(fs.disk[ino]), false, 1)
    ensures FsOk(gs) && Core(gs) && Dir(gs) == Dir(fs) && ViewOf(gs) == Grabbed(ViewOf(fs), ino)
    ensures gs.table[ino].inode.linkcount == fs.InodeOf(ino).linkcount
  {
    hide FsOkBut, Core, Dir, FileView;
    Referenced(fs, gs, ino, if ino in fs.table then fs.table[ino].refcount + 1 else 1, 0, 0);
    FsParts(gs, 0, 0);
  }

  /** What the directory names exists, and has a link. */
  lemma NamedInode(fs: Fs, slot: nat, name: Name)
    requires FsOk(fs) && Core(fs) && Binds(Dir(fs), slot, name)
    ensures var ino := Dir(fs)[slot].ino;
            fs.IsInode(ino) && ino < |fs.disk| && fs.InodeOf(ino).Shape() && fs.InodeOf(ino).linkcount > 0
  {
    hide Core, Dir, Dense, InodeOk;
    var ino := Dir(fs)[slot].ino;
    UniqueDir(fs);
    InodeNumber(fs, ino);
    InodeRange(fs, ino);
    LinksPositive(Dir(fs), slot);
  }

  /** A write of one entry that failed has moved nothing, and it can only fail at the end of the directory. */
  lemma WriteCalled(fs: Fs, gs: Fs, slot: nat, b: seq<byte>, sent: nat, r: IoResult, resid: nat)
    requires FsOk(fs) && Core(fs) && ROOT_LOCATION in fs.table && ROOT_LOCATION in gs.table && |b| == DIRENT
    requires gs.table == fs.table[ROOT_LOCATION := gs.table[ROOT_LOCATION]] && slot <= |Dir(fs)|
    requires gs.table[ROOT_LOCATION].refcount == fs.table[ROOT_LOCATION].refcount
    requires gs.table[ROOT_LOCATION].inode.blocks < WORD_LIMIT && sent + resid == DIRENT
    requires FileStep(fs.Of(ROOT_LOCATION), gs.Of(ROOT_LOCATION), ROOT_LOCATION, Write(slot * DIRENT, b, sent, r.Done?))
    requires Stops(slot * DIRENT, slot * DIRENT + sent, resid, r)
    requires Smooth(fs.Of(ROOT_LOCATION), (slot + 1) * DIRENT, r)
    ensures r.Done? ==> sent == DIRENT && Called(fs, gs, ROOT_LOCATION, Write(slot * DIRENT, b, DIRENT, true))
    ensures !r.Done? ==> sent == 0 && Called(fs, gs, ROOT_LOCATION, Write(slot * DIRENT, b, 0, false))
    ensures slot < |Dir(fs)| ==> r.Done?
  {
    hide Core, TreeOk, Dense, FsOkBut, Dir, OnlyFile;
    DirFacts(fs, slot);
    if 0 < sent < DIRENT {
      EntryInBlock(slot, sent);
    }
  }

  /** No entry lies across the end of a block. */
  lemma EntryInBlock(slot: nat, sent: nat)
    requires 0 < sent < DIRENT
    ensures (slot * DIRENT + sent) % BLOCKSIZE != 0
  {
  }

  lemma WhyFailed(b: Snap, off: nat, slot: nat, r: IoResult)
    requires Explained(b, off, r) && !r.Done? && off == slot * DIRENT && (slot + 1) * DIRENT < OFF_LIMIT
    requires slot * DIRENT <= FAULTBLOCK * BLOCKSIZE
    ensures r == IoFailed(ENOSPC) || r.Fault?
    ensures r.Fault? ==> FAULTBLOCK * BLOCKSIZE <= slot * DIRENT
    ensures r == IoFailed(ENOSPC) ==> forall x: nat | x < |b.disk| :: x in b.owner
  {
  }

  /** Where entry `slot` lies, and that its block is there. */
  lemma DirFacts(fs: Fs, slot: nat)
    requires FsOk(fs) && Core(fs) && slot <= |Dir(fs)|
    ensures ROOT_LOCATION < |fs.disk| && InodeOk(fs, ROOT_LOCATION) && fs.InodeOf(ROOT_LOCATION).blocks < WORD_LIMIT
    ensures fs.InodeOf(ROOT_LOCATION).Shape() && fs.Of(ROOT_LOCATION).Ok(ROOT_LOCATION)
    ensures fs.InodeOf(ROOT_LOCATION).size == |Dir(fs)| * DIRENT
    ensures (slot + 1) * DIRENT < OFF_LIMIT && slot * DIRENT <= FAULTBLOCK * BLOCKSIZE
    ensures slot < |Dir(fs)| ==> Dense(fs.Of(ROOT_LOCATION), (slot + 1) * DIRENT)
  {
    RootOk(fs);
    InodeRange(fs, ROOT_LOCATION);
    InodeOkAt(fs, ROOT_LOCATION);
    DenseBound(fs.Of(ROOT_LOCATION), fs.InodeOf(ROOT_LOCATION).size);
  }

  lemma ReadIsPure(fs: Fs, b: Snap, slot: nat, r: IoResult, mem: seq<byte>, base: nat)
    requires FsOk(fs) && Core(fs) && slot < |Dir(fs)| && ROOT_LOCATION < |fs.disk|
    requires base <= |mem| == DIRENT
    requires FileStep(fs.Of(ROOT_LOCATION), b, ROOT_LOCATION, Read(slot * DIRENT, DIRENT, mem[0..base], r.Done?))
    requires Tidy(fs.Of(ROOT_LOCATION), b, (slot + 1) * DIRENT, false)
    requires Smooth(fs.Of(ROOT_LOCATION), (slot + 1) * DIRENT, r)
    ensures b == fs.Of(ROOT_LOCATION) && base == DIRENT && DecodeEntry(mem) == Dir(fs)[slot]
  {
    hide Core, TreeOk, Dense, FsOkBut, DecodeEntry, FileStep, Contents, TailZero;
    DirFacts(fs, slot);
    DirAt(fs, slot);
    ReadInside(fs.Of(ROOT_LOCATION), b, ROOT_LOCATION, slot * DIRENT, DIRENT, mem[0..base]);
    assert mem[0..DIRENT] == mem;
  }

  lemma DirAt(fs: Fs, slot: nat)
    requires FsOk(fs) && Core(fs) && slot < |Dir(fs)| && ROOT_LOCATION < |fs.disk| && fs.InodeOf(ROOT_LOCATION).Shape()
    ensures (slot + 1) * DIRENT <= |Contents(fs.Of(ROOT_LOCATION))|
    ensures Dir(fs)[slot] == EntryAt(Contents(fs.Of(ROOT_LOCATION)), slot)
  {
    hide Core, Dense;
  }

  lemma WithoutUpdate(t: map<nat, Vnode>, ino: nat, v: Vnode)
    requires ino !in t
    ensures t[ino := v] - {ino} == t
  {
  }

  lemma ErasedBy(fs: Fs, gs: Fs, ino: nat)
    requires gs.disk == fs.disk && gs.owner == Strip(fs.owner, ino) && gs.table == fs.table - {ino}
    requires gs.freemap.dirty && |gs.freemap.bits| == |fs.freemap.bits|
    ensures Erased(fs, gs, ino)
  {
  }

  /** A file is named if it has an entry in the directory; the root directory always counts as named. */
  ghost predicate Named(v: View, ino: nat) {
    ino == ROOT_LOCATION || exists name :: name in v.dir && v.dir[name] == ino
  }

  /** The view when the last reference to `ino` is gone: a file without a name disappears. */
  ghost function Unloaded(v: View, ino: nat): View {
    v.(refs := v.refs - {ino}, files := if Named(v, ino) then v.files else v.files - {ino})
  }

  lemma UnloadedView(fs: Fs, gs: Fs, ino: nat, files: map<nat, FileData>)
    requires Core(fs) && Core(gs) && Dir(gs) == Dir(fs) && Refs(gs) == Refs(fs) - {ino}
    requires files.Keys == FileView(fs).Keys
    requires forall x | x in FileView(fs) && x != ino :: files[x] == FileView(fs)[x]
    requires Named(ViewOf(fs), ino) ==> files == FileView(fs)
    requires FileView(gs) == if Named(ViewOf(fs), ino) then files else files - {ino}
    ensures ViewOf(gs) == Unloaded(ViewOf(fs), ino)
  {
    hide Core, Dir, FileView, Refs, Named;
    assert Named(ViewOf(fs), ino) || files - {ino} == FileView(fs) - {ino};
  }

  /** The view when one reference to `ino` is given up. */
  ghost function Released(v: View, ino: nat): View
    requires ino in v.refs
  {
    if v.refs[ino] > 1 then v.(refs := v.refs[ino := v.refs[ino] - 1]) else Unloaded(v, ino)
  }

  lemma NamedCount(fs: Fs, ino: nat)
    requires FsOk(fs) && fs.IsInode(ino) && ino < |fs.disk|
    ensures Named(ViewOf(fs), ino) <==> fs.InodeOf(ino).linkcount > 0
  {
    hide Core, Dir, Dense, InodeOk;
    var es := Dir(fs);
    RootOk(fs);
    if Links(es, ino) > 0 {
      var k := LinksFrom(es, ino);
      BindingAt(es, k);
    } else if name :| name in Bindings(es) && Bindings(es)[name] == ino {
      var k := BindingFrom(es, name);
      LinksPositive(es, k);
    }
  }

  lemma LinklessFile(fs: Fs, ino: nat)
    requires FsOk(fs) && ino in fs.table && fs.table[ino].inode.linkcount == 0
    ensures ino != ROOT_LOCATION
  {
    TableInode(fs, ino);
    Unlinked(fs, ino);
  }

  lemma StripKeys(owner: Owner, ino: nat)
    requires 0 in owner && owner[0] == Superblock && ino != 0
    ensures Strip(owner, ino).Keys == (owner - {ino}).Keys
    ensures 0 in Strip(owner, ino) && Strip(owner, ino)[0] == Superblock
  {
  }

  /** Every inode can be written to disk. */
  lemma InodeFits(fs: Fs, ino: nat)
    requires Core(fs) && fs.IsInode(ino) && ino < |fs.disk|
    ensures fs.InodeOf(ino).Fits()
  {
    hide TableOk, InodesOk;
    InodeOkAt(fs, ino);
    PointersFit(fs.Of(ino), ino);
  }

  lemma PointersFit(a: Snap, ino: nat)
    requires a.Ok(ino) && |a.disk| <= WORD_LIMIT
    ensures forall r | ValidSlot(Slot(r, [])) :: RootPtr(a.inode, r) < WORD_LIMIT
    ensures forall i: nat | i < NDIRECT :: a.inode.direct[i] < WORD_LIMIT
    ensures a.inode.indirect < WORD_LIMIT && a.inode.doubleindirect < WORD_LIMIT && a.inode.tripleindirect < WORD_LIMIT
  {
    forall r | ValidSlot(Slot(r, []))
      ensures RootPtr(a.inode, r) < WORD_LIMIT
    {
      RootOf(a, r);
      if a.At(Slot(r, [])) != 0 {
        SlotInVolume(a, ino, Slot(r, []));
      }
    }
    forall i: nat | i < NDIRECT
      ensures a.inode.direct[i] < WORD_LIMIT
    {
      assert RootPtr(a.inode, Direct(i)) < WORD_LIMIT;
    }
    assert RootPtr(a.inode, Indirect) < WORD_LIMIT && RootPtr(a.inode, Double) < WORD_LIMIT
           && RootPtr(a.inode, Triple) < WORD_LIMIT;
  }

  lemma FsDirOk(fs: Fs)
    requires FsOk(fs)
    ensures Core(fs) && DirOk(fs)
  {
  }

  lemma FsParts(fs: Fs, ino0: nat, d: int)
    requires FsOkBut(fs, ino0, d)
    ensures Core(fs) && RolesOk(fs)
  {
  }

  lemma TruncateView(fs: Fs, gs: Fs, ino: nat, len: nat)
    requires Core(fs) && Core(gs) && Called(fs, gs, ino, Truncate(len)) && ino in FileView(fs) && ino < |gs.disk|
    requires gs.InodeOf(ino).Shape() && FileView(gs) == FileView(fs)[ino := DataOf(gs.Of(ino))]
    ensures FileView(fs)[ino].clean ==> FileView(gs)[ino].bytes == CutTo(FileView(fs)[ino].bytes, len)
  {
    hide Core, FileView, TreeOk, Truncated, CutTo;
    FilesAt(fs, ino);
    if FileView(fs)[ino].clean {
      TruncateContents(fs.Of(ino), gs.Of(ino), ino, len);
    }
  }

  lemma TruncateCalled(fs: Fs, gs: Fs, ino: nat, len: nat)
    requires ino in fs.table && ino in gs.table && gs.table == fs.table[ino := gs.table[ino]]
    requires gs.table[ino].refcount == fs.table[ino].refcount && len < OFF_LIMIT
             && gs.table[ino].inode.blocks < WORD_LIMIT
    requires fs.Of(ino).Ok(ino) && gs.Of(ino).Ok(ino) && Truncated(fs.Of(ino), gs.Of(ino), ino, len)
    ensures Called(fs, gs, ino, Truncate(len))
    ensures FileStep(fs.Of(ino), gs.Of(ino), ino, Truncate(len))
  {
    hide TreeOk;
  }
}
