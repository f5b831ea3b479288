/** How sfi_blocks relates to the blocks of a file, and what truncation gives back. */
module SfsBlocks {
  import opened SfsLayout
  import opened SfsTree
  import opened SfsMap
  import opened SfsVolume
  import opened SfsIo
  import opened SfsTruncate
  import opened SfsFile
  import opened UioModel

  /** The blocks that file `ino` has taken and not given back. */
  function Charged(owner: Owner, ino: nat): set<nat> {
    set b | b in owner && ChargedTo(owner[b], ino)
  }

  /** The blocks that a pointer of file `ino` leads to. */
  function TreeBlocks(owner: Owner, ino: nat): set<nat> {
    set b | b in owner && owner[b].Tree? && owner[b].ino == ino
  }

  /** sfi_blocks is the number of blocks taken. */
  predicate CountOk(a: Snap, ino: nat) {
    a.inode.blocks == Wrap(|Charged(a.owner, ino)|)
  }

  lemma UnionCount(s: set<nat>, t: set<nat>)
    requires s !! t
    ensures |s + t| == |s| + |t|
  {
  }

  lemma OwnersAdded(a: Owner, b: Owner, ino: nat)
    requires forall x: nat | x in a :: x in b && b[x] == a[x]
    requires forall x: nat | x in b && x !in a :: ChargedTo(b[x], ino)
    ensures |Charged(b, ino)| - |Charged(a, ino)| == |b| - |a|
  {
    hide ChargedTo;
    var added := b.Keys - a.Keys;
    assert b.Keys == a.Keys + added;
    assert Charged(b, ino) == Charged(a, ino) + added;
    UnionCount(a.Keys, added);
    UnionCount(Charged(a, ino), added);
  }

  lemma OwnersRemoved(a: Owner, b: Owner, ino: nat, freed: set<nat>)
    requires forall x: nat | x in b :: x in a && x !in freed
    requires forall x: nat | x in a && x !in freed :: x in b && (ChargedTo(b[x], ino) <==> ChargedTo(a[x], ino))
    requires forall x: nat | x in freed :: x in a && ChargedTo(a[x], ino)
    ensures |Charged(a, ino)| - |Charged(b, ino)| == |a| - |b|
  {
    hide ChargedTo;
    assert a.Keys == b.Keys + freed;
    assert Charged(a, ino) == Charged(b, ino) + freed;
    UnionCount(b.Keys, freed);
    UnionCount(Charged(b, ino), freed);
  }

  /** Whatever a read or a write allocates is counted, even when it fails half way. */
  lemma TransferKeepsCount(a: Snap, b: Snap, ino: nat)
    requires OnlyFile(a, b, ino) && CountOk(a, ino)
    ensures CountOk(b, ino)
  {
    hide Wrap;
    OwnersAdded(a.owner, b.owner, ino);
    WrapShift(|Charged(a.owner, ino)|, |b.owner| - |a.owner|);
  }

  lemma WrapOff(x: nat, k: nat)
    requires k < WORD_LIMIT
    ensures Wrap(x - k) == Wrap(x) <==> k == 0
  {
    var q, r := x / WORD_LIMIT, x % WORD_LIMIT;
    if r >= k {
      assert x - k == q * WORD_LIMIT + (r - k);
    } else {
      assert x - k == (q - 1) * WORD_LIMIT + (r - k + WORD_LIMIT);
    }
  }

  lemma TruncatedOwners(a: Snap, b: Snap, ino: nat, len: nat)
    requires Truncated(a, b, ino, len)
    ensures |Charged(a.owner, ino)| - |Charged(b.owner, ino)| == |a.owner| - |b.owner|
  {
    OwnersRemoved(a.owner, b.owner, ino, set x | x in a.owner && Frees(a, BlockLen(len), ino, x));
  }

  /** Truncation keeps the count right exactly when it forgets no double or triple indirect block. */
  lemma TruncateCount(a: Snap, b: Snap, ino: nat, len: nat)
    requires Truncated(a, b, ino, len) && CountOk(a, ino)
    ensures |a.disk| > 0
    ensures CountOk(b, ino) <==> Forgets(a, BlockLen(len)) == 0
  {
    hide Wrap, Forgets, Charged, PrunesOwner;
    TruncatedOwners(a, b, ino, len);
    var d := |b.owner| - |a.owner|;
    WrapShift(|Charged(a.owner, ino)|, d - Forgets(a, BlockLen(len)));
    WrapOff(|Charged(b.owner, ino)|, Forgets(a, BlockLen(len)));
  }

  /** A forgotten root stays marked in the freemap, though nothing leads to it any more. */
  lemma ForgottenRoot(a: Snap, b: Snap, ino: nat, len: nat)
    requires a.Ok(ino) && b.Ok(ino) && Truncated(a, b, ino, len) && a.inode.doubleindirect != 0
    requires Cuts(a.inode, BlockLen(len)) && !HasKept(IndirectWords(a), BlockLen(len))
    ensures a.inode.doubleindirect in b.owner && b.owner[a.inode.doubleindirect] == Lost(ino)
    ensures forall s | ValidSlot(s) :: b.At(s) != a.inode.doubleindirect
  {
    RootOf(a, Double);
    SlotInVolume(a, ino, Slot(Double, []));
    forall s | ValidSlot(s)
      ensures b.At(s) != a.inode.doubleindirect
    {
      if b.At(s) != 0 {
        SlotInVolume(b, ino, s);
      }
    }
  }

  // ----- files of direct and single-indirect blocks

  /** The file has no deeper indirect block, and every block it took is one of its tree. */
  predicate Small(a: Snap, ino: nat) {
    Shallow(a.inode) && forall b | b in a.owner :: a.owner[b] != Lost(ino)
  }

  /** For such a file sfi_blocks is the number of blocks in its tree. */
  lemma SmallCount(a: Snap, ino: nat)
    requires Small(a, ino)
    ensures CountOk(a, ino) <==> a.inode.blocks == Wrap(|TreeBlocks(a.owner, ino)|)
  {
    assert Charged(a.owner, ino) == TreeBlocks(a.owner, ino);
  }

  /** A file stays small under reads, under writes that end below SHALLOW_LIMIT, and under truncation. */
  lemma SmallTransfer(a: Snap, b: Snap, ino: nat, end: nat, write: bool)
    requires Small(a, ino) && OnlyFile(a, b, ino) && Tidy(a, b, end, write)
    requires write ==> end <= SHALLOW_LIMIT
    ensures Small(b, ino)
  {
  }

  lemma SmallTruncate(a: Snap, b: Snap, ino: nat, len: nat)
    requires a.Ok(ino) && b.Ok(ino) && Small(a, ino) && Truncated(a, b, ino, len)
    ensures Small(b, ino) && |a.disk| > 0 && Forgets(a, BlockLen(len)) == 0
  {
    RootOf(b, Double);
    RootOf(b, Triple);
    RootOf(a, Double);
    RootOf(a, Triple);
    forall x | x in b.owner
      ensures b.owner[x] != Lost(ino)
    {
      if a.owner[x].Tree? && a.owner[x].ino == ino {
        SmallSlot(a, ino, x);
      }
    }
  }

  lemma SmallSlot(a: Snap, ino: nat, x: nat)
    requires a.Ok(ino) && Shallow(a.inode) && x in a.owner && a.owner[x].Tree? && a.owner[x].ino == ino
    ensures a.owner[x].slot.root.Direct? || a.owner[x].slot.root.Indirect?
  {
    var s := a.owner[x].slot;
    RootOf(a, s.root);
    if a.At(Slot(s.root, [])) == 0 {
      EmptyRoot(a, s);
    }
  }

  /**
   * Cutting a small file to nothing frees exactly the blocks of its tree, each of them once, leaves its block
   * count at zero, and changes no other owner.
   */
  lemma SmallTruncateToNothing(a: Snap, b: Snap, ino: nat)
    requires a.Ok(ino) && b.Ok(ino) && Small(a, ino) && CountOk(a, ino) && Truncated(a, b, ino, 0)
    ensures b.owner == map x | x in a.owner && x !in TreeBlocks(a.owner, ino) :: a.owner[x]
    ensures TreeBlocks(b.owner, ino) == {} && b.inode.blocks == 0
    ensures |a.owner| - |b.owner| == |TreeBlocks(a.owner, ino)|
  {
    SmallTruncate(a, b, ino, 0);
    TruncateToNothing(a, b, ino);
    NoTreeBlocks(b, ino);
    NothingLeft(a, b, ino);
    TruncateCount(a, b, ino, 0);
    TruncatedOwners(a, b, ino, 0);
    assert Charged(b.owner, ino) == {};
    assert Charged(a.owner, ino) == TreeBlocks(a.owner, ino);
  }

  lemma NoTreeBlocks(b: Snap, ino: nat)
    requires b.Ok(ino) && forall s | ValidSlot(s) :: b.At(s) == 0
    ensures forall x | x in b.owner :: !(b.owner[x].Tree? && b.owner[x].ino == ino)
  {
  }

  lemma NothingLeft(a: Snap, b: Snap, ino: nat)
    requires a.Ok(ino) && Small(a, ino) && Truncated(a, b, ino, 0)
    requires forall x | x in b.owner :: !(b.owner[x].Tree? && b.owner[x].ino == ino) && b.owner[x] != Lost(ino)
    ensures b.owner == map x | x in a.owner && x !in TreeBlocks(a.owner, ino) :: a.owner[x]
  {
  }

  // ----- bytes that come back

  /** A volume of three blocks: the superblock, an inode, and the one data block of that inode's file. */
  function TwoByteFile(): (a: Snap)
    ensures a.inode.Shape()
  {
    Snap([ZeroBlock(), ZeroBlock(), ZeroBlock()[0 := 7][1 := 9]],
         map[0 := Superblock, 1 := InodeBlock, 2 := Tree(1, Slot(Direct(0), []))],
         FreeMap([0x07], true), FreshInode().(size := 2, direct := FreshInode().direct[0 := 2], blocks := 1), false)
  }

  lemma TwoByteFileOk()
    ensures TwoByteFile().Ok(1) && TailZero(TwoByteFile()) && Contents(TwoByteFile()) == [7, 9]
  {
    var a := TwoByteFile();
    forall s | ValidSlot(s)
      ensures a.At(s) == if s == Slot(Direct(0), []) then 2 else 0
    {
      RootOf(a, s.root);
      if s.path == [] {
        assert s == Slot(s.root, []);
      } else {
        EmptyRoot(a, s);
      }
    }
    assert BlockOf(ImageOf(a.disk), a.inode, 0) == 2;
    forall i: nat
      ensures ByteAt(a, i) == if i == 0 then 7 else if i == 1 then 9 else 0
    {
    }
  }

  lemma StaleByteKept(b: Snap)
    requires FileStep(TwoByteFile(), b, 1, Truncate(1))
    ensures b.inode.size == 1 && forall i: nat :: ByteAt(b, i) == if i == 0 then 7 else if i == 1 then 9 else 0
  {
    var a := TwoByteFile();
    TwoByteFileOk();
    TruncatedBytes(a, b, 1, 1);
    forall i: nat
      ensures ByteAt(b, i) == if i == 0 then 7 else if i == 1 then 9 else 0
    {
      if i < 2 {
        assert KeptByte(a, 1, i);
        assert ByteAt(a, i) == Contents(a)[i];
      } else if i >= a.inode.size {
        assert ByteAt(a, i) == 0;
      }
    }
  }

  /**
   * The byte behind a cut comes back: the file 7 9, cut to one byte and then made five bytes long by a write
   * at its new end, reads 7 9 0 0 5 instead of 7 0 0 0 5.
   */
  lemma StaleByteReturns(b: Snap, c: Snap)
    requires FileStep(TwoByteFile(), b, 1, Truncate(1)) && FileStep(b, c, 1, Write(4, [5], 1, true))
    ensures Contents(b) == [7] && WriteAt([7], 4, [5]) == [7, 0, 0, 0, 5]
    ensures Contents(c) == [7, 9, 0, 0, 5]
  {
    hide ByteAt, TreeOk, OnlyFile, Truncated, ZeroBytes;
    StaleByteKept(b);
    assert [5 as byte][..1] == [5];
    assert Wrote(b, c, 4, [5]);
    assert ByteAt(c, 0) == 7 && ByteAt(c, 1) == 9 && ByteAt(c, 2) == 0 && ByteAt(c, 3) == 0 && ByteAt(c, 4) == 5;
  }
}
