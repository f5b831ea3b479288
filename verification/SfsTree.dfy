/** The block tree of a file: where each pointer lives, what it points to, and who owns each disk block. */
module SfsTree {
  import opened SfsLayout

  /** The disk seen as words: what each block would hold if it were an indirect block. */
  type Image = seq<seq<nat>>

  predicate IsImage(w: Image) {
    forall b: nat | b < |w| :: |w[b]| == DBPERIDB
  }

  /** The four kinds of pointer that an inode holds. */
  datatype Root = Direct(i: nat) | Indirect | Double | Triple

  /** A pointer of a file's tree: a root in the inode, then an index into each indirect block below it. */
  datatype Slot = Slot(root: Root, path: seq<nat>)

  function Depth(r: Root): nat {
    match r
    case Direct(_) => 0
    case Indirect => 1
    case Double => 2
    case Triple => 3
  }

  predicate ValidSlot(s: Slot) {
    && (s.root.Direct? ==> s.root.i < NDIRECT)
    && |s.path| <= Depth(s.root)
    && forall k | 0 <= k < |s.path| :: s.path[k] < DBPERIDB
  }

  /** The slot holds the number of an indirect block, not of a data block. */
  predicate Interior(s: Slot) {
    |s.path| < Depth(s.root)
  }

  function Parent(s: Slot): Slot
    requires s.path != []
  {
    s.(path := s.path[..|s.path| - 1])
  }

  function Child(s: Slot, k: nat): Slot {
    s.(path := s.path + [k])
  }

  function RootPtr(n: Inode, r: Root): nat
    requires n.Shape() && (r.Direct? ==> r.i < NDIRECT)
  {
    match r
    case Direct(i) => n.direct[i]
    case Indirect => n.indirect
    case Double => n.doubleindirect
    case Triple => n.tripleindirect
  }

  function SetRootPtr(n: Inode, r: Root, b: nat): (m: Inode)
    requires n.Shape() && (r.Direct? ==> r.i < NDIRECT)
    ensures m.Shape()
  {
    match r
    case Direct(i) => n.(direct := n.direct[i := b])
    case Indirect => n.(indirect := b)
    case Double => n.(doubleindirect := b)
    case Triple => n.(tripleindirect := b)
  }

  /** The block number stored in a slot; 0 when there is none. */
  function Ptr(w: Image, n: Inode, s: Slot): nat
    requires IsImage(w) && n.Shape() && ValidSlot(s)
    decreases |s.path|
  {
    if s.path == [] then RootPtr(n, s.root)
    else
      var p := Ptr(w, n, Parent(s));
      if p == 0 || p >= |w| then 0 else w[p][s.path[|s.path| - 1]]
  }

  function NoPointers(): seq<nat> {
    seq(DBPERIDB, _ => 0)
  }

  /**
   * What a marked disk block is used for. A lost block was taken by a file but nothing leads to it; an orphan
   * belongs to no file at all.
   */
  datatype Role = Superblock | FreemapBlock | InodeBlock | Tree(ino: nat, slot: Slot) | Lost(ino: nat) | Orphan

  type Owner = map<nat, Role>

  /**
   * The tree of file `ino` is separated from everything else: each of its nonzero pointers leads to a block
   * owned by exactly that slot of that file, and every block so owned is reached from there.
   */
  ghost predicate TreeOk(w: Image, owner: Owner, ino: nat, n: Inode) {
    && IsImage(w) && n.Shape()
    && (forall s | ValidSlot(s) && Ptr(w, n, s) != 0 ::
          var p := Ptr(w, n, s);
          p < |w| && p in owner && owner[p] == Tree(ino, s))
    && (forall b | b in owner && owner[b].Tree? && owner[b].ino == ino ::
          b != 0 && ValidSlot(owner[b].slot) && Ptr(w, n, owner[b].slot) == b)
  }

  predicate InteriorOf(owner: Owner, ino: nat, b: nat) {
    b in owner && owner[b].Tree? && owner[b].ino == ino && Interior(owner[b].slot)
  }

  /** No two pointers, of one file or of two, lead to the same block. */
  lemma TreesAreDisjoint(w: Image, owner: Owner, ino1: nat, n1: Inode, s1: Slot, ino2: nat, n2: Inode, s2: Slot)
    requires TreeOk(w, owner, ino1, n1) && TreeOk(w, owner, ino2, n2)
    requires ValidSlot(s1) && ValidSlot(s2)
    requires Ptr(w, n1, s1) == Ptr(w, n2, s2) != 0
    ensures ino1 == ino2 && s1 == s2
  {
  }

  /** The pointers of a file depend only on its inode and on its indirect blocks. */
  lemma {:induction false} FramePtr(w: Image, w': Image, owner: Owner, ino: nat, n: Inode, s: Slot)
    requires TreeOk(w, owner, ino, n) && ValidSlot(s)
    requires IsImage(w') && |w'| == |w|
    requires forall b: nat | InteriorOf(owner, ino, b) && b < |w| :: w'[b] == w[b]
    ensures Ptr(w', n, s) == Ptr(w, n, s)
    decreases |s.path|
  {
    if s.path != [] {
      FramePtr(w, w', owner, ino, n, Parent(s));
      var p := Ptr(w, n, Parent(s));
      if p != 0 {
        assert InteriorOf(owner, ino, p);
      }
    }
  }

  lemma FrameTree(w: Image, w': Image, owner: Owner, owner': Owner, ino: nat, n: Inode)
    requires TreeOk(w, owner, ino, n)
    requires IsImage(w') && |w'| == |w|
    requires forall b: nat | InteriorOf(owner, ino, b) && b < |w| :: w'[b] == w[b]
    requires forall b | b in owner && owner[b].Tree? && owner[b].ino == ino :: b in owner' && owner'[b] == owner[b]
    requires forall b | b in owner' && owner'[b].Tree? && owner'[b].ino == ino :: b in owner && owner'[b] == owner[b]
    ensures TreeOk(w', owner', ino, n)
    ensures forall s | ValidSlot(s) :: Ptr(w', n, s) == Ptr(w, n, s)
  {
    forall s | ValidSlot(s)
      ensures Ptr(w', n, s) == Ptr(w, n, s)
    {
      FramePtr(w, w', owner, ino, n, s);
    }
  }

  /** What hanging the fresh block `nb` below slot `s` at index `k` does to the tree. */
  ghost predicate Grafts(w: Image, w': Image, owner: Owner, ino: nat, n: Inode, s: Slot, k: nat, nb: nat)
    requires IsImage(w) && n.Shape()
  {
    && ValidSlot(s) && Interior(s) && k < DBPERIDB
    && IsImage(w') && |w'| == |w|
    && 0 < nb < |w| && nb !in owner
    && w'[nb] == NoPointers()
    && var p := Ptr(w, n, s);
      && 0 < p < |w| && w[p][k] == 0
      && (forall j: nat | j < DBPERIDB :: w'[p][j] == if j == k then nb else w[p][j])
      && (forall b: nat | InteriorOf(owner, ino, b) && b < |w| && b != p :: w'[b] == w[b])
  }

  lemma GraftByUpdate(w: Image, w': Image, owner: Owner, ino: nat, n: Inode, s: Slot, k: nat, nb: nat)
    requires TreeOk(w, owner, ino, n) && ValidSlot(s) && Interior(s) && k < DBPERIDB
    requires 0 < nb < |w| && nb !in owner && 0 < Ptr(w, n, s) < |w| && Ptr(w, n, Child(s, k)) == 0
    requires w' == w[nb := NoPointers()][Ptr(w, n, s) := w[Ptr(w, n, s)][k := nb]]
    ensures Grafts(w, w', owner, ino, n, s, k, nb)
  {
    assert Parent(Child(s, k)) == s;
    assert Ptr(w, n, s) in owner;
  }

  lemma {:induction false} GraftPtr(w: Image, w': Image, owner: Owner, ino: nat, n: Inode,
                                    s: Slot, k: nat, nb: nat, t: Slot)
    requires TreeOk(w, owner, ino, n) && ValidSlot(t)
    requires Grafts(w, w', owner, ino, n, s, k, nb)
    ensures Ptr(w', n, t) == if t == Child(s, k) then nb else Ptr(w, n, t)
    ensures t == Child(s, k) ==> Ptr(w, n, t) == 0
    decreases |t.path|
  {
    hide TreeOk;
    OwnerOfSlot(w, owner, ino, n, s);
    if t.path != [] {
      var q := Parent(t);
      assert t == Child(q, t.path[|t.path| - 1]);
      GraftPtr(w, w', owner, ino, n, s, k, nb, q);
      OwnerOfSlot(w, owner, ino, n, q);
      if q != Child(s, k) && Ptr(w, n, q) != 0 {
        assert InteriorOf(owner, ino, Ptr(w, n, q));
      }
    }
  }

  lemma OwnerOfSlot(w: Image, owner: Owner, ino: nat, n: Inode, s: Slot)
    requires TreeOk(w, owner, ino, n) && ValidSlot(s)
    ensures IsImage(w) && n.Shape()
    ensures Ptr(w, n, s) != 0 ==> Ptr(w, n, s) < |w| && Ptr(w, n, s) in owner && owner[Ptr(w, n, s)] == Tree(ino, s)
  {
  }

  /** Grafting changes exactly one pointer and keeps the tree separated. */
  lemma GraftTree(w: Image, w': Image, owner: Owner, ino: nat, n: Inode, s: Slot, k: nat, nb: nat)
    requires TreeOk(w, owner, ino, n)
    requires Grafts(w, w', owner, ino, n, s, k, nb)
    ensures ValidSlot(Child(s, k))
    ensures TreeOk(w', owner[nb := Tree(ino, Child(s, k))], ino, n)
    ensures forall t | ValidSlot(t) :: Ptr(w', n, t) == if t == Child(s, k) then nb else Ptr(w, n, t)
    ensures Ptr(w, n, Child(s, k)) == 0
  {
    forall t | ValidSlot(t)
      ensures Ptr(w', n, t) == if t == Child(s, k) then nb else Ptr(w, n, t)
      ensures t == Child(s, k) ==> Ptr(w, n, t) == 0
    {
      GraftPtr(w, w', owner, ino, n, s, k, nb, t);
    }
  }

  lemma {:induction false} GraftRootPtr(w: Image, w': Image, owner: Owner, ino: nat, n: Inode, m: Inode,
                                        r: Root, nb: nat, t: Slot)
    requires TreeOk(w, owner, ino, n) && ValidSlot(t)
    requires ValidSlot(Slot(r, [])) && RootPtr(n, r) == 0
    requires m.Shape() && forall q | ValidSlot(Slot(q, [])) :: RootPtr(m, q) == if q == r then nb else RootPtr(n, q)
    requires IsImage(w') && |w'| == |w| && 0 < nb < |w| && nb !in owner && w'[nb] == NoPointers()
    requires forall b: nat | InteriorOf(owner, ino, b) && b < |w| :: w'[b] == w[b]
    ensures Ptr(w', m, t) == if t == Slot(r, []) then nb else Ptr(w, n, t)
    decreases |t.path|
  {
    if t.path == [] {
      assert t == Slot(t.root, []);
    } else {
      var q := Parent(t);
      GraftRootPtr(w, w', owner, ino, n, m, r, nb, q);
      if q == Slot(r, []) {
      } else if Ptr(w, n, q) != 0 {
        assert InteriorOf(owner, ino, Ptr(w, n, q));
      }
    }
  }

  lemma GraftRoot(w: Image, w': Image, owner: Owner, ino: nat, n: Inode, m: Inode, r: Root, nb: nat)
    requires TreeOk(w, owner, ino, n)
    requires ValidSlot(Slot(r, [])) && RootPtr(n, r) == 0
    requires m.Shape() && forall q | ValidSlot(Slot(q, [])) :: RootPtr(m, q) == if q == r then nb else RootPtr(n, q)
    requires IsImage(w') && |w'| == |w| && 0 < nb < |w| && nb !in owner && w'[nb] == NoPointers()
    requires forall b: nat | InteriorOf(owner, ino, b) && b < |w| :: w'[b] == w[b]
    ensures TreeOk(w', owner[nb := Tree(ino, Slot(r, []))], ino, m)
    ensures forall t | ValidSlot(t) :: Ptr(w', m, t) == if t == Slot(r, []) then nb else Ptr(w, n, t)
  {
    forall t | ValidSlot(t)
      ensures Ptr(w', m, t) == if t == Slot(r, []) then nb else Ptr(w, n, t)
    {
      GraftRootPtr(w, w', owner, ino, n, m, r, nb, t);
    }
  }

  /** The two inodes hold the same pointers, whatever their other fields. */
  predicate SamePointers(n: Inode, m: Inode) {
    && n.direct == m.direct && n.indirect == m.indirect
    && n.doubleindirect == m.doubleindirect && n.tripleindirect == m.tripleindirect
  }

  lemma {:induction false} SamePtr(w: Image, n: Inode, m: Inode, s: Slot)
    requires IsImage(w) && n.Shape() && m.Shape() && SamePointers(n, m) && ValidSlot(s)
    ensures Ptr(w, n, s) == Ptr(w, m, s)
    decreases |s.path|
  {
    if s.path != [] {
      SamePtr(w, n, m, Parent(s));
    }
  }

  lemma SameTree(w: Image, owner: Owner, ino: nat, n: Inode, m: Inode)
    requires TreeOk(w, owner, ino, n) && m.Shape() && SamePointers(n, m)
    ensures TreeOk(w, owner, ino, m)
    ensures forall s | ValidSlot(s) :: Ptr(w, n, s) == Ptr(w, m, s)
  {
    forall s | ValidSlot(s)
      ensures Ptr(w, n, s) == Ptr(w, m, s)
    {
      SamePtr(w, n, m, s);
    }
  }
}
