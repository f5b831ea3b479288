/** A file with the largest link count: it can be made on a volume from mksfs, and what link and rename do to it. */
module SfsLargest {
  import opened SfsLayout
  import opened SfsTree
  import opened SfsMap
  import opened SfsVolume
  import opened SfsSpace
  import opened SfsIo
  import opened SfsFile
  import opened SfsDirent
  import opened SfsState
  import opened SfsChanges
  import opened SfsFileSystem
  import opened Mksfs

  /** The blocks of the volume. */
  const BLOCKS: nat := 65536

  /** How many blocks the directory has when it is full of names for one file. */
  const DIRBLOCKS: nat := 8192

  // ----- that many names

  function NameOf(k: nat): (name: Name)
    requires k < HALF_LIMIT
    ensures |name| == 3 && IsName(name)
  {
    [1 + k % 128, 1 + k / 128 % 128, 1 + k / 128 / 128]
  }

  lemma NamesDiffer(j: nat, k: nat)
    requires j < HALF_LIMIT && k < HALF_LIMIT && NameOf(j) == NameOf(k)
    ensures j == k
  {
    assert NameOf(j)[0] == NameOf(k)[0] && NameOf(j)[1] == NameOf(k)[1] && NameOf(j)[2] == NameOf(k)[2];
    assert j / 128 == 128 * (j / 128 / 128) + j / 128 % 128 && k / 128 == 128 * (k / 128 / 128) + k / 128 % 128;
  }

  /** The directory with `n` names for one file and no other name. */
  function Names(n: nat, ino: nat): (m: map<Name, nat>)
    requires n <= HALF_LIMIT
  {
    if n == 0 then map[] else Names(n - 1, ino)[NameOf(n - 1) := ino]
  }

  lemma {:induction false} NamesAre(n: nat, ino: nat, k: nat)
    requires n <= HALF_LIMIT && k < HALF_LIMIT
    ensures NameOf(k) in Names(n, ino) <==> k < n
    ensures k < n ==> Names(n, ino)[NameOf(k)] == ino
  {
    hide NameOf;
    if n > 0 {
      NamesAre(n - 1, ino, k);
      if NameOf(k) == NameOf(n - 1) {
        NamesDiffer(k, n - 1);
      }
    }
  }

  lemma {:induction false} NamesCount(n: nat, ino: nat)
    requires n <= HALF_LIMIT
    ensures |NamesOf(Names(n, ino), ino)| == n
  {
    hide NameOf;
    if n == 0 {
      assert NamesOf(map[], ino) == {};
    } else {
      NamesCount(n - 1, ino);
      NamesAre(n - 1, ino, n - 1);
      NamesAfter(Names(n - 1, ino), Names(n, ino), NameOf(n - 1), ino, ino);
    }
  }

  // ----- there is room for them

  /** What is in use, with what the directory needs for all its blocks, fits into the volume. */
  ghost predicate Roomy(fs: Fs, n: nat) {
    && Core(fs) && |fs.disk| == BLOCKS && |Dir(fs)| <= n < HALF_LIMIT && Reserve(fs, DIRBLOCKS) <= BLOCKS
  }

  lemma WholeDirectory(n: nat)
    requires n < HALF_LIMIT
    ensures BlockLen((n + 1) * DIRENT) <= DIRBLOCKS <= FAULTBLOCK && n * DIRENT < FAULTBLOCK * BLOCKSIZE
    ensures n * DIRENT / BLOCKSIZE <= BlockLen((n + 1) * DIRENT)
  {
  }

  /** So the next name finds its block. */
  lemma RoomForName(fs: Fs, n: nat)
    requires Roomy(fs, n)
    ensures !LacksSpace(fs, 0) && !DirFull(Dir(fs))
  {
    hide Core, Dir, HasFree, WaysTo, RootMissing, BlockLen, Missing;
    var k := |Dir(fs)|;
    WholeDirectory(k);
    LacksIs(fs);
    var lo, hi := k * DIRENT / BLOCKSIZE, BlockLen((k + 1) * DIRENT);
    WaysSplit(0, lo, DIRBLOCKS);
    WaysSplit(lo, hi, DIRBLOCKS);
    FewerMissing(fs, EntryWays(k), WaysTo(0, DIRBLOCKS));
  }

  lemma FewerMissing(fs: Fs, ways: set<Slot>, all: set<Slot>)
    requires Core(fs) && ways <= all
    ensures RootMissing(fs, ways) <= RootMissing(fs, all)
  {
    hide Core, RootMissing, Ptr;
    RootMissingIs(fs, ways);
    RootMissingIs(fs, all);
    SubsetSize(Missing(fs.Of(ROOT_LOCATION), ways), Missing(fs.Of(ROOT_LOCATION), all));
  }

  /** Each name takes its blocks from what was set aside for it. */
  lemma StaysRoomy(fs: Fs, gs: Fs, n: nat)
    requires Roomy(fs, n) && n + 1 < HALF_LIMIT && Core(gs) && |gs.disk| == |fs.disk| && Spent(fs, gs, 0)
    requires |Dir(gs)| <= |Dir(fs)| + 1
    ensures Roomy(gs, n + 1)
  {
    hide Core, Dir, Reserve, BlockLen;
    WholeDirectory(|Dir(fs)|);
  }

  /** On a new volume there is room for the first file and for all the names. */
  lemma NewIsRoomy(fs: Fs)
    requires Core(fs) && |fs.disk| == BLOCKS && fs.owner == FreshOwner(BLOCKS) && Dir(fs) == []
    ensures !LacksSpace(fs, 1) && !DirFull(Dir(fs)) && Reserve(fs, DIRBLOCKS) + 1 <= BLOCKS
  {
    hide Core, RootMissing, FreshOwner, WaysTo, EntryWays;
    FewOwners();
    FirstWays();
    RootMissingBound(fs, EntryWays(0), 0, 1);
    RootMissingBound(fs, WaysTo(0, DIRBLOCKS), 0, DIRBLOCKS);
  }

  lemma FirstWays()
    ensures EntryWays(0) == WaysTo(0, 1)
  {
    hide WaysTo;
  }

  lemma FewOwners()
    ensures |FreshOwner(BLOCKS)| == MAP_LOCATION + 16
  {
    hide FreshOwner;
    assert BitBlocks(BLOCKS) == 16;
    assert Reserved(16) == Below(MAP_LOCATION + 16);
    assert |FreshOwner(BLOCKS)| == |FreshOwner(BLOCKS).Keys|;
  }

  lemma RootMissingBound(fs: Fs, ways: set<Slot>, lo: nat, hi: nat)
    requires Core(fs) && lo <= hi && ways == WaysTo(lo, hi)
    ensures RootMissing(fs, ways) <= 4 * (hi - lo)
  {
    hide Core, RootMissing, Ptr, WaysTo;
    RootMissingIs(fs, ways);
    WaysLength(lo, hi);
    SubsetSize(Missing(fs.Of(ROOT_LOCATION), ways), ways);
  }

  // ----- the file

  /** An empty volume with its root directory loaded. */
  method NewVolume() returns (fs: SfsFs, dir: SfsVnode)
    ensures fresh(fs) && fs.Valid() && fs.Has(dir) && dir.ino == ROOT_LOCATION
    ensures Core(fs.State()) && fs.View().dir == map[] && Dir(fs.State()) == [] && |fs.vol.disk| == BLOCKS
            && fs.vol.owner == FreshOwner(BLOCKS)
    ensures fresh(fs.vol) && fresh(fs.vol.freemap.v) && fresh(dir) && fresh(fs.vnodes)
  {
    hide Mirrors, TableOf, SfsFs.Table, FsOkBut, Core, Volume.Valid, Dir, FileView, FreshOwner, BitBlocks, Fresh,
      InodeOk, ZeroBlock;
    var device := seq(BLOCKS, _ => ZeroBlock());
    SizesFit();
    var r, disk, bits := MakeFs(device, []);
    fs := MountNew(disk, bits);
    FsParts(fs.State(), 0, 0);
    RootOk(fs.State());
    var l := fs.Grab(ROOT_LOCATION, true);
    dir := l.sv;
    FsParts(fs.State(), 0, 0);
    assert forall i: nat | i < |fs.vnodes| :: fs.vnodes[i] in fs.vnodes;
  }

  lemma SizesFit()
    ensures BitBlocks(BLOCKS) <= MAXBITBLOCKS && MAP_LOCATION + BitBlocks(BLOCKS) <= BLOCKS
    ensures BLOCKS + BLOCKBITS - 1 < WORD_LIMIT
  {
  }

  /** A file with one name, and then one name after the other, up to the largest link count. */
  method Largest() returns (fs: SfsFs, dir: SfsVnode, f: SfsVnode)
    ensures fs.Valid() && fs.Has(dir) && dir.ino == ROOT_LOCATION && fs.Has(f) && f.ino != ROOT_LOCATION
    ensures f.inode.linkcount + 1 == HALF_LIMIT && fs.View().dir == Names(HALF_LIMIT - 1, f.ino)
    ensures Roomy(fs.State(), HALF_LIMIT - 1)
    ensures fresh(fs) && fresh(fs.vol) && fresh(fs.vol.freemap.v) && fresh(dir) && fresh(f)
    ensures fresh(fs.vnodes)
  {
    hide Mirrors, TableOf, SfsFs.Table, FsOkBut, Core, Volume.Valid, Dir, FileView, FreshOwner, NameOf, Names, Roomy,
      LacksSpace, DirFull, Spent, Created, Reserve;
    fs, dir := NewVolume();
    f := FirstName(fs, dir);
    assert forall i: nat | i < |fs.vnodes| :: fs.vnodes[i] in fs.vnodes;
    var n := 1;
    while n + 1 < HALF_LIMIT
      invariant 1 <= n < HALF_LIMIT && fs.Valid() && Core(fs.State()) && fs.Has(dir) && fs.Has(f)
                && f.ino != ROOT_LOCATION
      invariant fs.View().dir == Names(n, f.ino) && Roomy(fs.State(), n)
      invariant fresh(fs) && fresh(fs.vol) && fresh(fs.vol.freemap.v) && fresh(dir) && fresh(f)
      invariant fresh(fs.vnodes)
    {
      AddName(fs, dir, f, n);
      n := n + 1;
    }
    CountOf(fs, f, n);
  }

  lemma CountOf(fs: SfsFs, f: SfsVnode, n: nat)
    requires fs.Valid() && Core(fs.State()) && fs.Has(f) && f.ino != ROOT_LOCATION && n < HALF_LIMIT
    requires fs.View().dir == Names(n, f.ino)
    ensures f.inode.linkcount == n
  {
    hide Mirrors, TableOf, SfsFs.Table, FsOkBut, Core, Volume.Valid, Dir, FileView, NameOf, Names;
    fs.Split(f);
    TableIsInode(fs.State(), f.ino);
    CountIsNames(fs.State(), f.ino);
    NamesCount(n, f.ino);
  }

  lemma TableIsInode(fs: Fs, ino: nat)
    requires Core(fs) && ino in fs.table
    ensures fs.IsInode(ino)
  {
  }

  method FirstName(fs: SfsFs, dir: SfsVnode) returns (f: SfsVnode)
    requires fs.Valid() && Core(fs.State()) && fs.Has(dir) && dir.ino == ROOT_LOCATION && fs.View().dir == map[]
    requires Dir(fs.State()) == [] && |fs.vol.disk| == BLOCKS && fs.vol.owner == FreshOwner(BLOCKS)
    modifies fs, fs.vol, fs.vol.freemap.v, fs.vnodes
    ensures fs.Valid() && Core(fs.State()) && fs.Has(dir) && fs.Has(f) && f.ino != ROOT_LOCATION
    ensures fs.View().dir == Names(1, f.ino) && Roomy(fs.State(), 1)
    ensures fresh(f)
    ensures forall sv | sv in fs.vnodes :: sv in old(fs.vnodes) || fresh(sv)
  {
    hide Mirrors, TableOf, SfsFs.Table, FsOkBut, Core, Volume.Valid, Dir, FileView, FreshOwner, NameOf, LacksSpace,
      DirFull, Spent, Created, Reserve;
    ghost var s := fs.State();
    NewIsRoomy(s);
    fs.TableKeys();
    var r, g := fs.Creat(dir, NameOf(0), true, true);
    f := g;
    FsParts(fs.State(), 0, 0);
    FirstIsRoomy(s, fs.State());
  }

  lemma FirstIsRoomy(fs: Fs, gs: Fs)
    requires Core(fs) && Core(gs) && Dir(fs) == [] && Spent(fs, gs, 1) && |gs.disk| == |fs.disk| == BLOCKS
    requires Reserve(fs, DIRBLOCKS) + 1 <= BLOCKS && |Dir(gs)| <= 1
    ensures Roomy(gs, 1)
  {
    hide Core, Dir, Reserve, BlockLen;
    WholeDirectory(0);
  }

  method AddName(fs: SfsFs, dir: SfsVnode, f: SfsVnode, n: nat)
    requires fs.Valid() && Core(fs.State()) && fs.Has(dir) && dir.ino == ROOT_LOCATION && fs.Has(f)
             && f.ino != ROOT_LOCATION
    requires n + 1 < HALF_LIMIT && fs.View().dir == Names(n, f.ino) && Roomy(fs.State(), n)
    modifies fs.vol, fs.vol.freemap.v, dir, f
    ensures fs.Valid() && Core(fs.State()) && fs.View().dir == Names(n + 1, f.ino) && Roomy(fs.State(), n + 1)
  {
    hide Mirrors, TableOf, SfsFs.Table, FsOkBut, Core, Volume.Valid, Dir, FileView, NameOf, Roomy, LacksSpace,
      DirFull, Spent;
    ghost var s := fs.State();
    RoomForName(s, n);
    NamesAre(n, f.ino, n);
    CountOf(fs, f, n);
    var r := fs.Link(dir, NameOf(n), f);
    FsParts(fs.State(), 0, 0);
    StaysRoomy(s, fs.State(), n);
  }

  /** Renaming such a file panics: the code adds a link before it removes one. */
  method RenamePanics() returns (r: Result)
    ensures r == Panic
  {
    hide Mirrors, TableOf, SfsFs.Table, FsOkBut, Core, Volume.Valid, Dir, FileView, NameOf, Names, Roomy, LacksSpace,
      DirFull, PanicsOnRename;
    var fs, dir, f := Largest();
    var n := HALF_LIMIT - 1;
    FsParts(fs.State(), 0, 0);
    RoomForName(fs.State(), n);
    NamesAre(n, f.ino, 0);
    NamesAre(n, f.ino, n);
    fs.Split(f);
    TableInode(fs.State(), f.ino);
    WouldPanic(fs.State(), f.ino);
    r := fs.Rename(dir, NameOf(0), NameOf(n), true);
  }

  lemma WouldPanic(fs: Fs, ino: nat)
    requires Core(fs) && ino in fs.table && fs.IsInode(ino) && InodeOk(fs, ino)
    requires fs.table[ino].inode.linkcount + 1 == HALF_LIMIT
    ensures PanicsOnRename(fs, ino)
  {
  }

  /** One link more succeeds, but its count is 0 and the volume is no longer consistent. */
  method LinkWraps() returns (fs: SfsFs, f: SfsVnode, r: Result)
    ensures r == Success && f.inode.linkcount == 0 && !fs.Valid()
  {
    hide Mirrors, TableOf, SfsFs.Table, FsOkBut, Core, Volume.Valid, Dir, FileView, NameOf, Names, Roomy, LacksSpace,
      DirFull;
    var dir: SfsVnode;
    fs, dir, f := Largest();
    var n := HALF_LIMIT - 1;
    FsParts(fs.State(), 0, 0);
    RoomForName(fs.State(), n);
    NamesAre(n, f.ino, n);
    r := fs.Link(dir, NameOf(n), f);
  }
}
