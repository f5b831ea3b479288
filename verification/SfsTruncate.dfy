/** sfs_truncate: which blocks it frees, which it forgets, and which bytes stay. */
module SfsTruncate {
  import opened SfsLayout
  import opened SfsTree
  import opened SfsMap
  import opened SfsVolume
  import opened SfsIo

  /** The last block of the single-indirect range; truncation looks at that range only below it. */
  const HIGHBLOCK: nat := NDIRECT + DBPERIDB - 1

  // ----- pruning a tree

  /** `w'` and `m` hold the tree of `n` with every pointer outside `keep` set to zero. */
  ghost predicate Prunes(w: Image, w': Image, n: Inode, m: Inode, keep: Slot -> bool)
    requires IsImage(w) && IsImage(w') && n.Shape() && m.Shape()
  {
    && |w'| == |w|
    && (forall r | ValidSlot(Slot(r, [])) :: RootPtr(m, r) == if keep(Slot(r, [])) then RootPtr(n, r) else 0)
    && (forall s, k: nat | ValidSlot(s) && Interior(s) && k < DBPERIDB && keep(Child(s, k)) :: keep(s))
    && (forall s | ValidSlot(s) && Interior(s) && keep(s) && 0 < Ptr(w, n, s) < |w| ::
          forall k: nat | k < DBPERIDB ::
            w'[Ptr(w, n, s)][k] == if keep(Child(s, k)) then w[Ptr(w, n, s)][k] else 0)
  }

  lemma {:induction false} PrunedPtr(w: Image, w': Image, n: Inode, m: Inode, keep: Slot -> bool, t: Slot)
    requires IsImage(w) && IsImage(w') && n.Shape() && m.Shape() && Prunes(w, w', n, m, keep) && ValidSlot(t)
    ensures Ptr(w', m, t) == if keep(t) then Ptr(w, n, t) else 0
    decreases |t.path|
  {
    if t.path == [] {
      assert t == Slot(t.root, []);
    } else {
      var q := Parent(t);
      assert t == Child(q, t.path[|t.path| - 1]);
      PrunedPtr(w, w', n, m, keep, q);
    }
  }

  /** The owners after pruning: the blocks in `freed` are free, the other blocks of dropped pointers are lost. */
  ghost predicate PrunesOwner(owner: Owner, owner': Owner, ino: nat, keep: Slot -> bool, freed: set<nat>) {
    && (forall b: nat | b in owner' :: b in owner && b !in freed)
    && (forall b: nat | b in owner && b !in freed ::
          b in owner' && owner'[b] == if owner[b].Tree? && owner[b].ino == ino && !keep(owner[b].slot)
                                      then Lost(ino) else owner[b])
    && (forall b: nat | b in freed :: b in owner && owner[b].Tree? && owner[b].ino == ino && !keep(owner[b].slot))
  }

  lemma PrunedTree(w: Image, w': Image, n: Inode, m: Inode, keep: Slot -> bool,
                   owner: Owner, owner': Owner, ino: nat, freed: set<nat>)
    requires TreeOk(w, owner, ino, n) && IsImage(w') && m.Shape()
    requires Prunes(w, w', n, m, keep) && PrunesOwner(owner, owner', ino, keep, freed)
    ensures TreeOk(w', owner', ino, m)
    ensures forall t | ValidSlot(t) :: Ptr(w', m, t) == if keep(t) then Ptr(w, n, t) else 0
  {
    forall t | ValidSlot(t)
      ensures Ptr(w', m, t) == if keep(t) then Ptr(w, n, t) else 0
    {
      PrunedPtr(w, w', n, m, keep, t);
    }
  }

  // ----- what truncation to `blocklen` blocks keeps

  /** Entry `j` of the indirect block survives. Block `blocklen` itself, one past the end, survives too. */
  predicate KeepsEntry(blocklen: nat, j: nat) { NDIRECT + j <= blocklen }

  /** Truncation reads the indirect block. */
  predicate Cuts(n: Inode, blocklen: nat) { blocklen < HIGHBLOCK && n.indirect != 0 }

  /** Some entry of the indirect block survives. */
  predicate HasKept(ws: seq<nat>, blocklen: nat)
    requires |ws| == DBPERIDB
  {
    exists j: nat | j < DBPERIDB :: KeepsEntry(blocklen, j) && ws[j] != 0
  }

  /** The words of the indirect block; of the superblock when there is none. */
  function IndirectWords(a: Snap): (ws: seq<nat>)
    requires |a.disk| > 0
    ensures |ws| == DBPERIDB
  {
    if a.inode.indirect < |a.disk| then Words(a.disk[a.inode.indirect]) else Words(a.disk[0])
  }

  /** The pointers that truncation keeps. */
  predicate Keeps(a: Snap, blocklen: nat, s: Slot)
    requires |a.disk| > 0
  {
    match s.root
    case Direct(i) => i < blocklen
    case Indirect =>
      Cuts(a.inode, blocklen) ==>
        HasKept(IndirectWords(a), blocklen) && (|s.path| == 1 ==> KeepsEntry(blocklen, s.path[0]))
    case _ =>
      Cuts(a.inode, blocklen) ==> HasKept(IndirectWords(a), blocklen)
  }

  /** The blocks that truncation frees: dropped ones of the direct and single-indirect range. */
  ghost predicate Frees(a: Snap, blocklen: nat, ino: nat, b: nat)
    requires |a.disk| > 0
  {
    && b in a.owner && a.owner[b].Tree? && a.owner[b].ino == ino
    && (a.owner[b].slot.root.Direct? || a.owner[b].slot.root.Indirect?)
    && !Keeps(a, blocklen, a.owner[b].slot)
  }

  /** How many roots sfs_truncate forgets, counting them as freed although their blocks stay marked. */
  function Forgets(a: Snap, blocklen: nat): (k: nat)
    requires |a.disk| > 0
    ensures k <= 2
  {
    if Cuts(a.inode, blocklen) && !HasKept(IndirectWords(a), blocklen) then
      (if a.inode.doubleindirect != 0 then 1 else 0) + (if a.inode.tripleindirect != 0 then 1 else 0)
    else 0
  }

  /** The whole effect of sfs_truncate(len). */
  ghost predicate Truncated(a: Snap, b: Snap, ino: nat, len: nat)
  {
    && |b.disk| == |a.disk| > 0 && a.inode.Shape() && b.inode.Shape()
    && (forall t | ValidSlot(t) :: b.At(t) == if Keeps(a, BlockLen(len), t) then a.At(t) else 0)
    && PrunesOwner(a.owner, b.owner, ino, s => Keeps(a, BlockLen(len), s),
                   set x | x in a.owner && Frees(a, BlockLen(len), ino, x))
    && (forall x: nat | x < |a.disk| && !InteriorOf(a.owner, ino, x) :: b.disk[x] == a.disk[x])
    && b.inode.size == len && b.dirty && MapKept(a.freemap, b.freemap)
    && b.inode.typ == a.inode.typ && b.inode.linkcount == a.inode.linkcount && b.inode.waste == a.inode.waste
    && b.inode.blocks == Wrap(a.inode.blocks + |b.owner| - |a.owner| - Forgets(a, BlockLen(len)))
  }

  // ----- the loops

  /** The first entry of the indirect block that truncation to `blocklen` blocks drops. */
  function EntryLimit(blocklen: nat): nat {
    if blocklen + 1 < NDIRECT then 0 else blocklen + 1 - NDIRECT
  }

  /** The nonzero entries of `ws` from index `lim` on and below `k`. */
  function Dropped(ws: seq<nat>, lim: nat, k: nat): set<nat>
    requires k <= |ws|
  {
    if k == 0 then {} else Dropped(ws, lim, k - 1) + if k - 1 >= lim && ws[k - 1] != 0 then {ws[k - 1]} else {}
  }

  lemma {:induction false} DroppedMembers(ws: seq<nat>, lim: nat, k: nat)
    requires k <= |ws|
    ensures forall b: nat :: b in Dropped(ws, lim, k) <==> b != 0 && exists j: nat | j < k :: j >= lim && ws[j] == b
  {
    if k > 0 {
      DroppedMembers(ws, lim, k - 1);
    }
  }

  lemma DroppedStep(ws: seq<nat>, lim: nat, k: nat)
    requires k < |ws|
    ensures k < lim || ws[k] == 0 ==> Dropped(ws, lim, k + 1) == Dropped(ws, lim, k)
  {
  }

  lemma NothingDropped(a: Snap, ws: seq<nat>, lim: nat)
    requires a.inode.blocks < WORD_LIMIT
    ensures a.owner - Dropped(ws, lim, 0) == a.owner && Counts(a.inode.blocks, a.owner, a.inode.blocks, a.owner, 0)
  {
  }

  /** The block numbers in `ws` are marked, and no two of them are equal. */
  ghost predicate Freeable(ws: seq<nat>, owner: Owner) {
    && (forall j: nat | j < |ws| && ws[j] != 0 :: ws[j] in owner)
    && (forall i: nat, j: nat | i < j < |ws| && ws[i] != 0 :: ws[i] != ws[j])
  }

  /** `ws` with the entries from `lim` on and below `k` set to zero. */
  function PruneWords(ws: seq<nat>, lim: nat, k: nat): (r: seq<nat>)
    requires k <= |ws|
    ensures |r| == |ws|
    ensures forall j: nat | j < |ws| :: r[j] == if lim <= j < k then 0 else ws[j]
  {
    seq(|ws|, j requires 0 <= j < |ws| => if lim <= j < k then 0 else ws[j])
  }

  /** sfi_blocks has followed the freed blocks down, and `lost` further. */
  ghost predicate Counts(n: nat, owner: Owner, m: nat, owner': Owner, lost: nat) {
    m == Wrap(n + |owner'| - |owner| - lost)
  }

  lemma RemoveOne(owner: Owner, b: nat)
    requires b in owner
    ensures |owner - {b}| == |owner| - 1
  {
    assert (owner - {b}).Keys == owner.Keys - {b};
  }

  lemma CountsOneLess(n: nat, owner: Owner, m: nat, owner': Owner, b: nat)
    requires Counts(n, owner, m, owner', 0) && b in owner'
    ensures Counts(n, owner, Wrap(m - 1), owner' - {b}, 0)
  {
    hide Wrap;
    assert m == Wrap(n + |owner'| - |owner|);
    WrapShift(n + |owner'| - |owner|, -1);
    RemoveOne(owner', b);
  }

  /** Frees entry `j` and takes it off the count, as the loop bodies of sfs_truncate do. */
  method FreeEntry(vol: Volume, sv: SfsVnode, ghost a: Snap, ws: seq<nat>, j: nat, ghost lim: nat)
    requires vol.Valid() && lim <= j < |ws| && ws[j] != 0 && Freeable(ws, a.owner)
    requires vol.owner == a.owner - Dropped(ws, lim, j)
    requires Counts(a.inode.blocks, a.owner, sv.inode.blocks, vol.owner, 0)
    modifies vol, vol.freemap.v, sv
    ensures vol.Valid() && vol.disk == old(vol.disk) && vol.owner == a.owner - Dropped(ws, lim, j + 1)
    ensures vol.freemapDirty
    ensures sv.inode == old(sv.inode).(blocks := sv.inode.blocks) && sv.refcount == old(sv.refcount)
    ensures Counts(a.inode.blocks, a.owner, sv.inode.blocks, vol.owner, 0) && sv.inode.blocks < WORD_LIMIT
  {
    hide Counts, Wrap, Volume.Valid;
    DroppedMembers(ws, lim, j);
    assert ws[j] in vol.owner;
    CountsOneLess(a.inode.blocks, a.owner, sv.inode.blocks, vol.owner, ws[j]);
    vol.Bfree(ws[j]);
    assert vol.owner == a.owner - Dropped(ws, lim, j + 1);
    sv.inode := sv.inode.(blocks := Wrap(sv.inode.blocks - 1));
  }

  /** The loop over the direct blocks. */
  method PruneDirect(vol: Volume, sv: SfsVnode, blocklen: nat)
    requires vol.Valid() && sv.inode.Shape() && sv.inode.blocks < WORD_LIMIT && Freeable(sv.inode.direct, vol.owner)
    modifies vol, vol.freemap.v, sv
    ensures vol.Valid() && vol.disk == old(vol.disk) && sv.refcount == old(sv.refcount)
    ensures MapKept(old(vol.Map()), vol.Map())
    ensures vol.owner == old(vol.owner) - Dropped(old(sv.inode.direct), blocklen, NDIRECT)
    ensures sv.inode == old(sv.inode).(direct := PruneWords(old(sv.inode.direct), blocklen, NDIRECT),
                                       blocks := sv.inode.blocks)
    ensures Counts(old(sv.inode.blocks), old(vol.owner), sv.inode.blocks, vol.owner, 0) && sv.inode.blocks < WORD_LIMIT
  {
    hide Freeable, Volume.Valid, Counts, Dropped;
    ghost var a := vol.Now(sv);
    var d := sv.inode.direct;
    var i := 0;
    assert PruneWords(d, blocklen, 0) == d;
    NothingDropped(a, d, blocklen);
    while i < NDIRECT
      invariant i <= NDIRECT && vol.Valid() && vol.disk == a.disk && sv.refcount == old(sv.refcount)
      invariant MapKept(a.freemap, vol.Map())
      invariant vol.owner == a.owner - Dropped(d, blocklen, i)
      invariant sv.inode == a.inode.(direct := PruneWords(d, blocklen, i), blocks := sv.inode.blocks)
      invariant Counts(a.inode.blocks, a.owner, sv.inode.blocks, vol.owner, 0) && sv.inode.blocks < WORD_LIMIT
    {
      var block := sv.inode.direct[i];
      if i >= blocklen && block != 0 {
        FreeEntry(vol, sv, a, d, i, blocklen);
        sv.inode := sv.inode.(direct := sv.inode.direct[i := 0]);
        sv.dirty := true;
      }
      DroppedStep(d, blocklen, i);
      assert sv.inode.direct == PruneWords(d, blocklen, i + 1);
      i := i + 1;
    }
  }

  /** The loop over the entries of the indirect block. */
  method PruneEntries(vol: Volume, sv: SfsVnode, blocklen: nat, buf: seq<nat>)
    returns (idbuf: seq<nat>, hasnonzero: bool, iddirty: bool)
    requires vol.Valid() && sv.inode.blocks < WORD_LIMIT && |buf| == DBPERIDB && Freeable(buf, vol.owner)
    modifies vol, vol.freemap.v, sv
    ensures vol.Valid() && vol.disk == old(vol.disk) && sv.refcount == old(sv.refcount)
    ensures MapKept(old(vol.Map()), vol.Map())
    ensures vol.owner == old(vol.owner) - Dropped(buf, EntryLimit(blocklen), DBPERIDB)
    ensures idbuf == PruneWords(buf, EntryLimit(blocklen), DBPERIDB)
    ensures sv.inode == old(sv.inode).(blocks := sv.inode.blocks)
    ensures Counts(old(sv.inode.blocks), old(vol.owner), sv.inode.blocks, vol.owner, 0)
    ensures hasnonzero <==> HasKept(buf, blocklen)
    ensures !iddirty ==> idbuf == buf
  {
    hide Freeable, Volume.Valid, Counts, Dropped;
    ghost var a := vol.Now(sv);
    ghost var lim := EntryLimit(blocklen);
    idbuf, hasnonzero, iddirty := buf, false, false;
    var j := 0;
    assert PruneWords(buf, lim, 0) == buf;
    NothingDropped(a, buf, lim);
    while j < DBPERIDB
      invariant j <= DBPERIDB && vol.Valid() && vol.disk == a.disk && sv.refcount == old(sv.refcount)
      invariant MapKept(a.freemap, vol.Map())
      invariant vol.owner == a.owner - Dropped(buf, lim, j)
      invariant sv.inode == a.inode.(blocks := sv.inode.blocks)
      invariant Counts(a.inode.blocks, a.owner, sv.inode.blocks, vol.owner, 0)
      invariant idbuf == PruneWords(buf, lim, j) && (!iddirty ==> idbuf == buf)
      invariant hasnonzero <==> exists i: nat | i < j :: KeepsEntry(blocklen, i) && buf[i] != 0
    {
      if blocklen < NDIRECT + j && idbuf[j] != 0 {
        FreeEntry(vol, sv, a, buf, j, lim);
        idbuf := idbuf[j := 0];
        iddirty := true;
      }
      DroppedStep(buf, lim, j);
      assert idbuf == PruneWords(buf, lim, j + 1);
      if idbuf[j] != 0 {
        hasnonzero := true;
      }
      j := j + 1;
    }
  }

  // ----- putting it together

  /** The pointers of the direct and the single-indirect range lead to different marked blocks. */
  lemma TreeFreeable(a: Snap, ino: nat)
    requires a.Ok(ino) && |a.disk| > 0
    ensures Freeable(a.inode.direct, a.owner)
    ensures a.inode.indirect != 0 ==> a.inode.indirect < |a.disk|
    ensures a.inode.indirect != 0 ==> Freeable(IndirectWords(a), a.owner)
    ensures a.inode.indirect != 0 ==> forall j: nat | j < DBPERIDB :: a.At(Slot(Indirect, [j])) == IndirectWords(a)[j]
    ensures forall i: nat | i < NDIRECT :: a.At(Slot(Direct(i), [])) == a.inode.direct[i]
  {
    forall i: nat | i < NDIRECT
      ensures a.At(Slot(Direct(i), [])) == a.inode.direct[i]
    {
    }
    if a.inode.indirect != 0 {
      RootOf(a, Indirect);
      SlotInVolume(a, ino, Slot(Indirect, []));
      forall j: nat | j < DBPERIDB
        ensures a.At(Slot(Indirect, [j])) == IndirectWords(a)[j]
      {
        assert Parent(Slot(Indirect, [j])) == Slot(Indirect, []);
      }
    }
    DistinctWords(a, ino, a.inode.direct, (j: nat) => Slot(Direct(j), []));
    if a.inode.indirect != 0 {
      DistinctWords(a, ino, IndirectWords(a), (j: nat) => Slot(Indirect, [j]));
    }
  }

  lemma DistinctWords(a: Snap, ino: nat, ws: seq<nat>, place: nat -> Slot)
    requires a.Ok(ino)
    requires forall j: nat | j < |ws| :: ValidSlot(place(j)) && a.At(place(j)) == ws[j]
    requires forall i: nat, j: nat | i < j :: place(i) != place(j)
    ensures Freeable(ws, a.owner)
  {
    forall j: nat | j < |ws| && ws[j] != 0
      ensures ws[j] in a.owner && a.owner[ws[j]] == Tree(ino, place(j))
    {
      SlotInVolume(a, ino, place(j));
    }
  }

  /** The blocks that the loops free, as a set. */
  function Freed(a: Snap, blocklen: nat): set<nat>
    requires a.inode.Shape() && |a.disk| > 0
  {
    Dropped(a.inode.direct, blocklen, NDIRECT)
    + (if Cuts(a.inode, blocklen) then Dropped(IndirectWords(a), EntryLimit(blocklen), DBPERIDB) else {})
    + (if Cuts(a.inode, blocklen) && !HasKept(IndirectWords(a), blocklen) then {a.inode.indirect} else {})
  }

  lemma FreedIsDropped(a: Snap, ino: nat, blocklen: nat)
    requires a.Ok(ino) && |a.disk| > 0
    ensures forall b: nat :: b in Freed(a, blocklen) <==> Frees(a, blocklen, ino, b)
  {
    TreeFreeable(a, ino);
    DroppedMembers(a.inode.direct, blocklen, NDIRECT);
    DroppedMembers(IndirectWords(a), EntryLimit(blocklen), DBPERIDB);
    forall b: nat | b in Freed(a, blocklen)
      ensures Frees(a, blocklen, ino, b)
    {
      FreedIsFrees(a, ino, blocklen, b);
    }
    forall b: nat | Frees(a, blocklen, ino, b)
      ensures b in Freed(a, blocklen)
    {
      FreesIsFreed(a, ino, blocklen, b);
    }
  }

  lemma FreedIsFrees(a: Snap, ino: nat, blocklen: nat, b: nat)
    requires a.Ok(ino) && |a.disk| > 0 && b in Freed(a, blocklen)
    ensures Frees(a, blocklen, ino, b)
  {
    hide Dropped, TreeOk;
    TreeFreeable(a, ino);
    DroppedMembers(a.inode.direct, blocklen, NDIRECT);
    DroppedMembers(IndirectWords(a), EntryLimit(blocklen), DBPERIDB);
    if b in Dropped(a.inode.direct, blocklen, NDIRECT) {
      var j: nat :| j < NDIRECT && j >= blocklen && a.inode.direct[j] == b;
      SlotInVolume(a, ino, Slot(Direct(j), []));
    } else if Cuts(a.inode, blocklen) && b in Dropped(IndirectWords(a), EntryLimit(blocklen), DBPERIDB) {
      var j: nat :| j < DBPERIDB && j >= EntryLimit(blocklen) && IndirectWords(a)[j] == b;
      SlotInVolume(a, ino, Slot(Indirect, [j]));
    } else {
      RootOf(a, Indirect);
      SlotInVolume(a, ino, Slot(Indirect, []));
    }
  }

  lemma FreesIsFreed(a: Snap, ino: nat, blocklen: nat, b: nat)
    requires a.Ok(ino) && |a.disk| > 0 && Frees(a, blocklen, ino, b)
    ensures b in Freed(a, blocklen)
  {
    hide Dropped;
    TreeFreeable(a, ino);
    DroppedMembers(a.inode.direct, blocklen, NDIRECT);
    DroppedMembers(IndirectWords(a), EntryLimit(blocklen), DBPERIDB);
    var s := a.owner[b].slot;
    assert b != 0 && ValidSlot(s) && a.At(s) == b;
    if s.root.Direct? {
      assert s == Slot(Direct(s.root.i), []);
      assert a.inode.direct[s.root.i] == b;
    } else if s.path == [] {
      RootOf(a, Indirect);
    } else {
      var j := s.path[0];
      assert s == Slot(Indirect, [j]);
      assert IndirectWords(a)[j] == b;
    }
  }

  /** The inode after truncation, but for its block count. */
  function CutInode(a: Snap, len: nat, blocks: nat): (m: Inode)
    requires a.inode.Shape() && |a.disk| > 0
    ensures m.Shape()
  {
    var n := a.inode.(direct := PruneWords(a.inode.direct, BlockLen(len), NDIRECT), size := len, blocks := blocks);
    if Cuts(a.inode, BlockLen(len)) && !HasKept(IndirectWords(a), BlockLen(len)) then
      n.(indirect := 0, doubleindirect := 0, tripleindirect := 0)
    else n
  }

  /** Only the indirect block is written, and only if some of it survives. */
  ghost predicate CutDisk(a: Snap, disk: Disk, blocklen: nat)
    requires |a.disk| > 0
  {
    && |disk| == |a.disk|
    && (forall x: nat | x < |disk| && x != a.inode.indirect :: disk[x] == a.disk[x])
    && (!(Cuts(a.inode, blocklen) && HasKept(IndirectWords(a), blocklen)) ==> disk == a.disk)
    && (Cuts(a.inode, blocklen) && HasKept(IndirectWords(a), blocklen) && a.inode.indirect < |disk| ==>
          Words(disk[a.inode.indirect]) == PruneWords(IndirectWords(a), EntryLimit(blocklen), DBPERIDB))
  }

  lemma CutSize(a: Snap, disk: Disk, blocklen: nat)
    requires |a.disk| > 0 && CutDisk(a, disk, blocklen)
    ensures |disk| == |a.disk|
  {
  }

  lemma CutPrunes(a: Snap, b: Snap, ino: nat, len: nat)
    requires a.Ok(ino) && |a.disk| > 0
    requires CutDisk(a, b.disk, BlockLen(len)) && b.inode == CutInode(a, len, b.inode.blocks)
    ensures Prunes(ImageOf(a.disk), ImageOf(b.disk), a.inode, b.inode, s => Keeps(a, BlockLen(len), s))
  {
    hide TreeOk, Keeps, CutDisk, CutInode;
    CutSize(a, b.disk, BlockLen(len));
    var w, w', blocklen := ImageOf(a.disk), ImageOf(b.disk), BlockLen(len);
    TreeFreeable(a, ino);
    forall r | ValidSlot(Slot(r, []))
      ensures RootPtr(b.inode, r) == if Keeps(a, blocklen, Slot(r, [])) then RootPtr(a.inode, r) else 0
    {
      CutRoot(a, len, b.inode.blocks, r);
    }
    forall s, k: nat | ValidSlot(s) && Interior(s) && k < DBPERIDB && Keeps(a, blocklen, Child(s, k))
      ensures Keeps(a, blocklen, s)
    {
      KeepsParent(a, blocklen, s, k);
    }
    forall s | ValidSlot(s) && Interior(s) && Keeps(a, blocklen, s) && 0 < a.At(s) < |w|
      ensures forall k: nat | k < DBPERIDB ::
                w'[a.At(s)][k] == if Keeps(a, blocklen, Child(s, k)) then w[a.At(s)][k] else 0
    {
      CutBlock(a, b, ino, len, s);
    }
  }

  lemma CutRoot(a: Snap, len: nat, blocks: nat, r: Root)
    requires a.inode.Shape() && |a.disk| > 0 && ValidSlot(Slot(r, []))
    ensures RootPtr(CutInode(a, len, blocks), r)
         == if Keeps(a, BlockLen(len), Slot(r, [])) then RootPtr(a.inode, r) else 0
  {
    hide HasKept, IndirectWords, BlockLen;
  }

  lemma KeepsParent(a: Snap, blocklen: nat, s: Slot, k: nat)
    requires |a.disk| > 0 && ValidSlot(s) && Interior(s) && k < DBPERIDB && Keeps(a, blocklen, Child(s, k))
    ensures Keeps(a, blocklen, s)
  {
    hide HasKept, IndirectWords, Cuts;
  }

  lemma CutBlock(a: Snap, b: Snap, ino: nat, len: nat, s: Slot)
    requires a.Ok(ino) && |a.disk| > 0
    requires CutDisk(a, b.disk, BlockLen(len))
    requires ValidSlot(s) && Interior(s) && Keeps(a, BlockLen(len), s) && 0 < a.At(s) < |a.disk|
    ensures forall k: nat | k < DBPERIDB ::
              Words(b.disk[a.At(s)])[k]
              == if Keeps(a, BlockLen(len), Child(s, k)) then Words(a.disk[a.At(s)])[k] else 0
  {
    hide TreeOk;
    RootOf(a, Indirect);
    if s.root.Indirect? {
      assert s == Slot(Indirect, []);
    } else if a.At(s) == a.inode.indirect {
      SlotInVolume(a, ino, s);
      SlotInVolume(a, ino, Slot(Indirect, []));
    }
  }

  /** Blocks of dropped pointers that stay marked belong to nothing any more. */
  ghost function Relabel(owner: Owner, a: Snap, ino: nat, blocklen: nat): (r: Owner)
    requires |a.disk| > 0
    ensures r.Keys == owner.Keys
  {
    map b | b in owner ::
      if owner[b].Tree? && owner[b].ino == ino && !Keeps(a, blocklen, owner[b].slot) then Lost(ino) else owner[b]
  }

  lemma TruncateOk(a: Snap, b: Snap, ino: nat, len: nat)
    requires a.Ok(ino) && |a.disk| > 0
    requires CutDisk(a, b.disk, BlockLen(len)) && b.inode == CutInode(a, len, b.inode.blocks)
    requires b.owner == Relabel(a.owner - Freed(a, BlockLen(len)), a, ino, BlockLen(len))
    ensures b.Ok(ino) && forall t | ValidSlot(t) :: b.At(t) == if Keeps(a, BlockLen(len), t) then a.At(t) else 0
    ensures PrunesOwner(a.owner, b.owner, ino, s => Keeps(a, BlockLen(len), s),
                        set x | x in a.owner && Frees(a, BlockLen(len), ino, x))
  {
    hide TreeOk, Keeps, CutDisk, CutInode, BlockLen, Frees, Relabel, Freed, PrunesOwner, Prunes;
    var blocklen := BlockLen(len);
    var freed := set x | x in a.owner && Frees(a, blocklen, ino, x);
    FreedIsDropped(a, ino, blocklen);
    CutPrunes(a, b, ino, len);
    CutOwner(a, b, ino, blocklen, freed);
    PrunedTree(ImageOf(a.disk), ImageOf(b.disk), a.inode, b.inode, s => Keeps(a, blocklen, s),
               a.owner, b.owner, ino, freed);
  }

  lemma TruncateEnd(a: Snap, b: Snap, ino: nat, len: nat)
    requires a.Ok(ino) && |a.disk| > 0
    requires CutDisk(a, b.disk, BlockLen(len)) && b.inode == CutInode(a, len, b.inode.blocks)
    requires b.owner == Relabel(a.owner - Freed(a, BlockLen(len)), a, ino, BlockLen(len))
    requires b.inode.blocks == Wrap(a.inode.blocks + |b.owner| - |a.owner| - Forgets(a, BlockLen(len))) && b.dirty
    requires MapKept(a.freemap, b.freemap)
    ensures b.Ok(ino) && Truncated(a, b, ino, len)
  {
    hide TreeOk, Keeps, BlockLen, Frees, Relabel, Freed, PrunesOwner, Prunes, Forgets, Wrap, MapKept, Words, HasKept;
    TruncateOk(a, b, ino, len);
    CutElsewhere(a, b, ino, BlockLen(len));
  }

  lemma CutOwner(a: Snap, b: Snap, ino: nat, blocklen: nat, freed: set<nat>)
    requires a.inode.Shape() && |a.disk| > 0
    requires b.owner == Relabel(a.owner - Freed(a, blocklen), a, ino, blocklen)
    requires forall x: nat :: x in Freed(a, blocklen) <==> Frees(a, blocklen, ino, x)
    requires freed == set x | x in a.owner && Frees(a, blocklen, ino, x)
    ensures PrunesOwner(a.owner, b.owner, ino, s => Keeps(a, blocklen, s), freed)
  {
  }

  lemma CutElsewhere(a: Snap, b: Snap, ino: nat, blocklen: nat)
    requires a.Ok(ino) && |a.disk| > 0 && CutDisk(a, b.disk, blocklen)
    ensures forall x: nat | x < |a.disk| && !InteriorOf(a.owner, ino, x) :: b.disk[x] == a.disk[x]
  {
    RootOf(a, Indirect);
    if a.inode.indirect != 0 {
      SlotInVolume(a, ino, Slot(Indirect, []));
    }
  }

  /** The owners that the loops leave, as one set taken away. */
  lemma FreedOwners(a: Snap, blocklen: nat, o: Owner)
    requires a.inode.Shape() && |a.disk| > 0
    requires o == a.owner - Dropped(a.inode.direct, blocklen, NDIRECT)
    ensures !Cuts(a.inode, blocklen) ==> o == a.owner - Freed(a, blocklen)
    ensures Cuts(a.inode, blocklen) ==>
              var p := o - Dropped(IndirectWords(a), EntryLimit(blocklen), DBPERIDB);
              (if HasKept(IndirectWords(a), blocklen) then p else p - {a.inode.indirect})
              == a.owner - Freed(a, blocklen)
  {
    hide Dropped, HasKept, Cuts, IndirectWords, EntryLimit;
  }

  /** What the part that deals with the indirect block makes of an inode `n` whose direct blocks were pruned. */
  ghost predicate IndirectCut(a: Snap, blocklen: nat, n: Inode, b: Snap)
    requires a.inode.Shape() && |a.disk| > 0
  {
    && CutDisk(a, b.disk, blocklen) && MapKept(a.freemap, b.freemap)
    && b.owner == a.owner - Freed(a, blocklen)
    && Counts(a.inode.blocks, a.owner, b.inode.blocks, b.owner, Forgets(a, blocklen))
    && b.inode == if Cuts(a.inode, blocklen) && !HasKept(IndirectWords(a), blocklen)
                  then n.(blocks := b.inode.blocks, indirect := 0, doubleindirect := 0, tripleindirect := 0)
                  else n.(blocks := b.inode.blocks)
  }

  /** The indirect block is written back only if an entry was cleared. */
  lemma EntriesCut(a: Snap, blocklen: nat, n: Inode, b: Snap, idbuf: seq<nat>, iddirty: bool)
    requires a.inode.Shape() && |a.disk| > 0 && FitWords(IndirectWords(a)) && a.inode.indirect < |a.disk|
    requires Cuts(a.inode, blocklen) && HasKept(IndirectWords(a), blocklen)
    requires idbuf == PruneWords(IndirectWords(a), EntryLimit(blocklen), DBPERIDB) && FitWords(idbuf)
    requires !iddirty ==> idbuf == IndirectWords(a)
    requires b.disk == if iddirty then a.disk[a.inode.indirect := WordBlock(idbuf)] else a.disk
    requires b.owner == a.owner - Freed(a, blocklen) && Counts(a.inode.blocks, a.owner, b.inode.blocks, b.owner, 0)
    requires b.inode == n.(blocks := b.inode.blocks) && MapKept(a.freemap, b.freemap)
    ensures IndirectCut(a, blocklen, n, b)
  {
    hide HasKept, PruneWords, Freed, Words, Counts;
    WordsRoundTrip(idbuf);
  }

  lemma NothingCut(a: Snap, blocklen: nat, b: Snap)
    requires a.inode.Shape() && |a.disk| > 0 && !Cuts(a.inode, blocklen) && b.disk == a.disk
    requires MapKept(a.freemap, b.freemap)
    requires b.owner == a.owner - Freed(a, blocklen) && Counts(a.inode.blocks, a.owner, b.inode.blocks, b.owner, 0)
    ensures IndirectCut(a, blocklen, b.inode, b)
  {
    hide HasKept, IndirectWords, Freed, Counts;
  }

  /** The part of sfs_truncate that deals with the indirect block. */
  method CutIndirect(vol: Volume, sv: SfsVnode, ghost a: Snap, blocklen: nat)
    requires vol.Valid() && a.Ok(sv.ino) && vol.disk == a.disk && |a.disk| > 0 && MapKept(a.freemap, vol.Map())
    requires Cuts(a.inode, blocklen)
    requires vol.owner == a.owner - Dropped(a.inode.direct, blocklen, NDIRECT)
    requires sv.inode.Shape() && sv.inode.indirect == a.inode.indirect && sv.inode.blocks < WORD_LIMIT
    requires sv.inode.doubleindirect == a.inode.doubleindirect && sv.inode.tripleindirect == a.inode.tripleindirect
    requires Counts(a.inode.blocks, a.owner, sv.inode.blocks, vol.owner, 0)
    modifies vol, vol.freemap.v, sv
    ensures vol.Valid() && sv.refcount == old(sv.refcount)
    ensures IndirectCut(a, blocklen, old(sv.inode), vol.Now(sv))
  {
    hide TreeOk, Dropped, Counts, Volume.Valid, HasKept, Freed, Freeable, Wrap, Words, PruneWords, IndirectCut, Forgets;
    var idblock := sv.inode.indirect;
    TreeFreeable(a, sv.ino);
    StillFreeable(a, sv.ino, blocklen);
    FreedOwners(a, blocklen, vol.owner);
    ghost var n, o := sv.inode, vol.owner;
    var buf := Words(vol.disk[idblock]);
    WordsFit(a.disk[idblock]);
    var idbuf, hasnonzero, iddirty := PruneEntries(vol, sv, blocklen, buf);
    CountsMore(a.inode.blocks, a.owner, n.blocks, o, sv.inode.blocks, vol.owner);
    if !hasnonzero {
      NotDropped(a, sv.ino, blocklen);
      FreeIndirect(vol, sv, a, blocklen, n);
    } else {
      PrunedFit(buf, EntryLimit(blocklen));
      if iddirty {
        vol.WriteBlock(idblock, WordBlock(idbuf));
      }
      EntriesCut(a, blocklen, n, vol.Now(sv), idbuf, iddirty);
    }
  }

  lemma PrunedFit(ws: seq<nat>, lim: nat)
    requires FitWords(ws)
    ensures FitWords(PruneWords(ws, lim, DBPERIDB))
  {
  }

  /** The indirect block itself goes when none of its entries is left, and the other roots are forgotten. */
  method FreeIndirect(vol: Volume, sv: SfsVnode, ghost a: Snap, ghost blocklen: nat, ghost n: Inode)
    requires vol.Valid() && vol.disk == a.disk && a.inode.Shape() && |a.disk| > 0 && MapKept(a.freemap, vol.Map())
    requires Cuts(a.inode, blocklen) && !HasKept(IndirectWords(a), blocklen)
    requires a.inode.indirect in vol.owner && vol.owner - {a.inode.indirect} == a.owner - Freed(a, blocklen)
    requires n.indirect == a.inode.indirect && sv.inode == n.(blocks := sv.inode.blocks)
    requires n.doubleindirect == a.inode.doubleindirect && n.tripleindirect == a.inode.tripleindirect
    requires Counts(a.inode.blocks, a.owner, sv.inode.blocks, vol.owner, 0)
    modifies vol, vol.freemap.v, sv
    ensures vol.Valid() && sv.refcount == old(sv.refcount)
    ensures IndirectCut(a, blocklen, n, vol.Now(sv))
  {
    hide Counts, Volume.Valid, HasKept, Wrap, Forgets, IndirectWords, IndirectCut, Freed;
    var idblock := sv.inode.indirect;
    CountsOneLess(a.inode.blocks, a.owner, sv.inode.blocks, vol.owner, idblock);
    vol.Bfree(idblock);
    sv.inode := sv.inode.(blocks := Wrap(sv.inode.blocks - 1), indirect := 0);
    ForgetRoots(sv, a, blocklen, vol.owner);
    sv.dirty := true;
    AllCut(a, blocklen, n, vol.Now(sv));
  }

  lemma AllCut(a: Snap, blocklen: nat, n: Inode, b: Snap)
    requires a.inode.Shape() && |a.disk| > 0 && b.disk == a.disk && MapKept(a.freemap, b.freemap)
    requires Cuts(a.inode, blocklen) && !HasKept(IndirectWords(a), blocklen)
    requires b.owner == a.owner - Freed(a, blocklen)
    requires b.inode == n.(blocks := b.inode.blocks, indirect := 0, doubleindirect := 0, tripleindirect := 0)
    requires Counts(a.inode.blocks, a.owner, b.inode.blocks, b.owner, Forgets(a, blocklen))
    ensures IndirectCut(a, blocklen, n, b)
  {
    hide HasKept, Counts, Forgets, IndirectWords, Freed;
  }

  lemma CountsMore(n: nat, o1: Owner, m: nat, o2: Owner, k: nat, o3: Owner)
    requires Counts(n, o1, m, o2, 0) && Counts(m, o2, k, o3, 0)
    ensures Counts(n, o1, k, o3, 0)
  {
    hide Wrap;
    WrapShift(n + |o2| - |o1|, |o3| - |o2|);
  }

  lemma CountsOneLost(n: nat, o1: Owner, m: nat, o2: Owner, lost: nat)
    requires Counts(n, o1, m, o2, lost)
    ensures Counts(n, o1, Wrap(m - 1), o2, lost + 1)
  {
    hide Wrap;
    WrapShift(n + |o2| - |o1| - lost, -1);
  }

  /** The other roots are dropped from the inode and the count, but their blocks stay marked. */
  method ForgetRoots(sv: SfsVnode, ghost a: Snap, ghost blocklen: nat, ghost owner: Owner)
    requires |a.disk| > 0 && Cuts(a.inode, blocklen) && !HasKept(IndirectWords(a), blocklen)
    requires sv.inode.doubleindirect == a.inode.doubleindirect && sv.inode.tripleindirect == a.inode.tripleindirect
    requires Counts(a.inode.blocks, a.owner, sv.inode.blocks, owner, 0)
    modifies sv
    ensures sv.inode == old(sv.inode).(blocks := sv.inode.blocks, doubleindirect := 0, tripleindirect := 0)
    ensures Counts(a.inode.blocks, a.owner, sv.inode.blocks, owner, Forgets(a, blocklen))
    ensures sv.refcount == old(sv.refcount)
  {
    hide Wrap, Counts;
    CountsOneLost(a.inode.blocks, a.owner, sv.inode.blocks, owner, 0);
    if sv.inode.doubleindirect != 0 {
      sv.inode := sv.inode.(blocks := Wrap(sv.inode.blocks - 1), doubleindirect := 0);
    }
    if sv.inode.tripleindirect != 0 {
      CountsOneLost(a.inode.blocks, a.owner, sv.inode.blocks, owner, if a.inode.doubleindirect != 0 then 1 else 0);
      sv.inode := sv.inode.(blocks := Wrap(sv.inode.blocks - 1), tripleindirect := 0);
    }
  }

  /** Freeing direct blocks leaves the entries of the indirect block to be freed. */
  lemma StillFreeable(a: Snap, ino: nat, blocklen: nat)
    requires a.Ok(ino) && 0 < a.inode.indirect < |a.disk|
    ensures Freeable(Words(a.disk[a.inode.indirect]), a.owner - Dropped(a.inode.direct, blocklen, NDIRECT))
  {
    hide Dropped;
    TreeFreeable(a, ino);
    DroppedMembers(a.inode.direct, blocklen, NDIRECT);
    var ws := IndirectWords(a);
    forall j: nat | j < DBPERIDB && ws[j] != 0
      ensures ws[j] !in Dropped(a.inode.direct, blocklen, NDIRECT)
    {
      SlotInVolume(a, ino, Slot(Indirect, [j]));
      if i: nat :| i < NDIRECT && i >= blocklen && a.inode.direct[i] == ws[j] {
        SlotInVolume(a, ino, Slot(Direct(i), []));
      }
    }
  }

  /** The indirect block itself is not among the blocks freed before it. */
  lemma NotDropped(a: Snap, ino: nat, blocklen: nat)
    requires a.Ok(ino) && 0 < a.inode.indirect < |a.disk|
    ensures a.inode.indirect in a.owner - Dropped(a.inode.direct, blocklen, NDIRECT)
                                - Dropped(Words(a.disk[a.inode.indirect]), EntryLimit(blocklen), DBPERIDB)
  {
    hide Dropped;
    TreeFreeable(a, ino);
    DroppedMembers(a.inode.direct, blocklen, NDIRECT);
    DroppedMembers(IndirectWords(a), EntryLimit(blocklen), DBPERIDB);
    RootOf(a, Indirect);
    SlotInVolume(a, ino, Slot(Indirect, []));
    if i: nat :| i < NDIRECT && i >= blocklen && a.inode.direct[i] == a.inode.indirect {
      SlotInVolume(a, ino, Slot(Direct(i), []));
    }
    if j: nat :| j < DBPERIDB && j >= EntryLimit(blocklen) && IndirectWords(a)[j] == a.inode.indirect {
      SlotInVolume(a, ino, Slot(Indirect, [j]));
    }
  }

  lemma RelabelFacts(a: Snap, ino: nat, blocklen: nat)
    requires a.Ok(ino) && |a.disk| > 0 && 0 in a.owner && a.owner[0] == Superblock
    ensures var o := a.owner - Freed(a, blocklen);
            var r := Relabel(o, a, ino, blocklen);
            |r| == |o| && 0 in r && r[0] == Superblock
  {
    var o := a.owner - Freed(a, blocklen);
    var r := Relabel(o, a, ino, blocklen);
    FreedIsDropped(a, ino, blocklen);
    assert 0 in o;
    assert |r.Keys| == |o.Keys|;
  }

  /** The last steps: the new size, and the forgotten blocks are nobody's. */
  lemma TruncateDone(a: Snap, n: Inode, b: Snap, c: Snap, ino: nat, len: nat)
    requires a.Ok(ino) && |a.disk| > 0 && 0 in a.owner && a.owner[0] == Superblock
    requires n == a.inode.(direct := PruneWords(a.inode.direct, BlockLen(len), NDIRECT), blocks := n.blocks)
    requires IndirectCut(a, BlockLen(len), n, b)
    requires c == Snap(b.disk, Relabel(b.owner, a, ino, BlockLen(len)), b.freemap, b.inode.(size := len), true)
    ensures c.Ok(ino) && Truncated(a, c, ino, len) && c.inode.blocks < WORD_LIMIT
    ensures 0 in c.owner && c.owner[0] == Superblock
  {
    hide TreeOk, HasKept, Truncated, Freed, Relabel, PruneWords, IndirectWords, Forgets, Wrap, CutDisk;
    RelabelFacts(a, ino, BlockLen(len));
    TruncateEnd(a, c, ino, len);
  }

  /** sfs_truncate. */
  method Truncate(vol: Volume, sv: SfsVnode, len: nat)
    requires vol.Valid() && vol.Now(sv).Ok(sv.ino) && sv.inode.blocks < WORD_LIMIT && len < OFF_LIMIT
    modifies vol, vol.freemap.v, sv
    ensures vol.Valid() && vol.Now(sv).Ok(sv.ino) && sv.inode.blocks < WORD_LIMIT
    ensures Truncated(old(vol.Now(sv)), vol.Now(sv), sv.ino, len)
    ensures sv.refcount == old(sv.refcount) && sv.dirty
  {
    hide TreeOk, Dropped, Counts, HasKept, Truncated, Volume.Valid, Freed, Relabel, Freeable, PruneWords,
      IndirectWords, Forgets, Wrap, IndirectCut;
    ghost var a := vol.Now(sv);
    vol.SuperblockOwned();
    TreeFreeable(a, sv.ino);
    var blocklen := BlockLen(len);
    PruneDirect(vol, sv, blocklen);
    ghost var n := sv.inode;
    FreedOwners(a, blocklen, vol.owner);
    if blocklen < HIGHBLOCK && sv.inode.indirect != 0 {
      CutIndirect(vol, sv, a, blocklen);
    } else {
      NothingCut(a, blocklen, vol.Now(sv));
    }
    ghost var b := vol.Now(sv);
    sv.inode := sv.inode.(size := len);
    sv.dirty := true;
    TruncateDone(a, n, b, Snap(b.disk, Relabel(b.owner, a, sv.ino, blocklen), b.freemap, sv.inode, true), sv.ino, len);
    vol.Reassign(Relabel(vol.owner, a, sv.ino, blocklen));
  }
}
