/** From a block number inside a file to the pointer that holds it, and the bytes of a file. */
module SfsMap {
  import opened SfsLayout
  import opened SfsTree

  /** The first block number that sfs_bmap refuses with EINVAL. */
  const MAXFILEBLOCK: nat := NDIRECT + DBPERIDB + DBPERIDB * DBPERIDB + DBPERIDB * DBPERIDB * DBPERIDB

  /** The first block number whose triple-indirect index lies outside the index buffer. */
  const FAULTBLOCK: nat := NDIRECT + 2 * DBPERIDB * DBPERIDB - DBPERIDB

  /** How many blocks `len` bytes take: DIVROUNDUP(len, SFS_BLOCKSIZE). */
  function BlockLen(len: nat): nat { (len + BLOCKSIZE - 1) / BLOCKSIZE }

  datatype Place = At(slot: Slot) | Nowhere

  /**
   * The indices that sfs_bmap computes for block `fileblock`. In the triple-indirect range the code subtracts
   * D*D-D rather than D*D+D and does not reduce the second index modulo D.
   */
  function IndexesOf(fileblock: nat): (s: Slot)
    ensures |s.path| == Depth(s.root)
    ensures s.root.Direct? <==> fileblock < NDIRECT
    ensures s.root.Direct? ==> s.root.i == fileblock
  {
    if fileblock < NDIRECT then
      Slot(Direct(fileblock), [])
    else
      var f := fileblock - NDIRECT;
      if f < DBPERIDB then
        Slot(Indirect, [f % DBPERIDB])
      else if f < DBPERIDB * DBPERIDB + DBPERIDB then
        var g := f - DBPERIDB;
        Slot(Double, [g / DBPERIDB, g % DBPERIDB])
      else
        var g := f - (DBPERIDB * DBPERIDB - DBPERIDB);
        Slot(Triple, [g / (DBPERIDB * DBPERIDB), g / DBPERIDB, g % DBPERIDB])
  }

  /** The pointer that belongs to block `fileblock`, if the indices lie inside the index buffer. */
  function PlaceOf(fileblock: nat): (p: Place)
    ensures p.At? ==> ValidSlot(p.slot) && !Interior(p.slot)
  {
    var s := IndexesOf(fileblock);
    if ValidSlot(s) then At(s) else Nowhere
  }

  /** The index arithmetic stays inside the index buffer exactly below FAULTBLOCK. */
  lemma PlaceExists(fileblock: nat)
    ensures PlaceOf(fileblock).At? <==> fileblock < FAULTBLOCK
  {
    var s := IndexesOf(fileblock);
    if s.root.Triple? {
      var g := fileblock - NDIRECT - (DBPERIDB * DBPERIDB - DBPERIDB);
      assert s.path[1] == g / DBPERIDB;
      assert g / DBPERIDB < DBPERIDB <==> fileblock < FAULTBLOCK;
    }
  }

  /** The file block that a data pointer stands for. */
  function BlockAt(s: Slot): nat
    requires ValidSlot(s) && !Interior(s)
  {
    match s.root
    case Direct(i) => i
    case Indirect => NDIRECT + s.path[0]
    case Double => NDIRECT + DBPERIDB + s.path[0] * DBPERIDB + s.path[1]
    case Triple => NDIRECT + DBPERIDB * DBPERIDB - DBPERIDB + s.path[1] * DBPERIDB + s.path[2]
  }

  /** The file block can be read off the pointer, so different blocks are reached through different pointers. */
  lemma PlaceRoundTrip(fileblock: nat)
    ensures PlaceOf(fileblock).At? ==> BlockAt(PlaceOf(fileblock).slot) == fileblock
  {
  }

  /** The disk block behind block `fileblock` of a file; 0 where the file has a hole. */
  function BlockOf(w: Image, n: Inode, fileblock: nat): nat
    requires IsImage(w) && n.Shape()
  {
    var p := PlaceOf(fileblock);
    if p.At? then Ptr(w, n, p.slot) else 0
  }

  /** Two different blocks of one file, or blocks of two files, never share a disk block. */
  lemma BlocksAreDisjoint(w: Image, owner: Owner, ino1: nat, n1: Inode, fb1: nat, ino2: nat, n2: Inode, fb2: nat)
    requires TreeOk(w, owner, ino1, n1) && TreeOk(w, owner, ino2, n2)
    requires BlockOf(w, n1, fb1) == BlockOf(w, n2, fb2) != 0
    ensures ino1 == ino2 && fb1 == fb2
  {
    PlaceRoundTrip(fb1);
    PlaceRoundTrip(fb2);
  }

  type Disk = seq<Block>

  function ImageOf(disk: Disk): (w: Image)
    ensures IsImage(w) && |w| == |disk|
  {
    seq(|disk|, b requires 0 <= b < |disk| => Words(disk[b]))
  }

  lemma ImageUpdate(disk: Disk, b: nat, x: Block)
    requires b < |disk|
    ensures ImageOf(disk[b := x]) == ImageOf(disk)[b := Words(x)]
  {
  }

  /** Byte `i` of a file as reading finds it, whatever the file's size: holes read as zero. */
  function FileByte(disk: Disk, n: Inode, i: nat): byte
    requires n.Shape()
  {
    var b := BlockOf(ImageOf(disk), n, i / BLOCKSIZE);
    if 0 < b < |disk| then disk[b][i % BLOCKSIZE] else 0
  }

  /** Changing one data block changes the bytes of that block of that file and no others. */
  lemma WriteOneBlock(disk: Disk, owner: Owner, ino: nat, n: Inode, fb: nat, x: Block)
    requires TreeOk(ImageOf(disk), owner, ino, n)
    requires BlockOf(ImageOf(disk), n, fb) != 0
    ensures BlockOf(ImageOf(disk), n, fb) < |disk|
    ensures var disk' := disk[BlockOf(ImageOf(disk), n, fb) := x];
            && TreeOk(ImageOf(disk'), owner, ino, n)
            && (forall s | ValidSlot(s) :: Ptr(ImageOf(disk'), n, s) == Ptr(ImageOf(disk), n, s))
            && forall i: nat :: FileByte(disk', n, i)
                                == if i / BLOCKSIZE == fb then x[i % BLOCKSIZE] else FileByte(disk, n, i)
  {
    var b := BlockOf(ImageOf(disk), n, fb);
    var disk' := disk[b := x];
    ImageUpdate(disk, b, x);
    FrameTree(ImageOf(disk), ImageOf(disk'), owner, owner, ino, n);
    forall i: nat
      ensures FileByte(disk', n, i) == if i / BLOCKSIZE == fb then x[i % BLOCKSIZE] else FileByte(disk, n, i)
    {
      var c := BlockOf(ImageOf(disk), n, i / BLOCKSIZE);
      if c == b {
        BlocksAreDisjoint(ImageOf(disk), owner, ino, n, fb, ino, n, i / BLOCKSIZE);
      }
    }
  }

  /** Writing a data block of one file leaves every other file's pointers and bytes alone. */
  lemma WriteFramesOthers(disk: Disk, owner: Owner, ino: nat, n: Inode, fb: nat, x: Block, ino2: nat, n2: Inode)
    requires TreeOk(ImageOf(disk), owner, ino, n) && TreeOk(ImageOf(disk), owner, ino2, n2) && ino != ino2
    requires BlockOf(ImageOf(disk), n, fb) != 0
    ensures BlockOf(ImageOf(disk), n, fb) < |disk|
    ensures var disk' := disk[BlockOf(ImageOf(disk), n, fb) := x];
            && TreeOk(ImageOf(disk'), owner, ino2, n2)
            && forall i: nat :: FileByte(disk', n2, i) == FileByte(disk, n2, i)
  {
    var b := BlockOf(ImageOf(disk), n, fb);
    var disk' := disk[b := x];
    ImageUpdate(disk, b, x);
    FrameTree(ImageOf(disk), ImageOf(disk'), owner, owner, ino2, n2);
    forall i: nat
      ensures FileByte(disk', n2, i) == FileByte(disk, n2, i)
    {
      if BlockOf(ImageOf(disk), n2, i / BLOCKSIZE) == b {
        BlocksAreDisjoint(ImageOf(disk), owner, ino, n, fb, ino2, n2, i / BLOCKSIZE);
      }
    }
  }
}
