/** How many blocks a file still needs: every pointer that is filled in costs one block, and nothing else does. */
module SfsSpace {
  import opened SfsLayout
  import opened SfsTree
  import opened SfsMap
  import opened SfsVolume
  import opened Errno

  /** The pointers on the ways to the file blocks from `lo` to `hi - 1`. */
  function WaysTo(lo: nat, hi: nat): (ways: set<Slot>)
    ensures forall fb: nat | lo <= fb < hi :: WayTo(fb) <= ways
    decreases hi
  {
    if hi <= lo then {} else WaysTo(lo, hi - 1) + WayTo(hi - 1)
  }

  /** Those of the pointers that are empty. */
  function Missing(a: Snap, ways: set<Slot>): (m: set<Slot>)
    requires a.inode.Shape()
    ensures m <= ways
  {
    set s | s in ways && ValidSlot(s) && a.At(s) == 0
  }

  /**
   * From `a` to `b` some empty pointers among `ways` were filled in, and no other pointer changed: all of them if the
   * transfer is done, not all if it ran short of space.
   */
  ghost predicate Fills(a: Snap, b: Snap, ways: set<Slot>, done: bool, short: bool)
    requires a.inode.Shape() && b.inode.Shape()
  {
    && (forall t | ValidSlot(t) && (t !in ways || a.At(t) != 0) :: b.At(t) == a.At(t))
    && (done ==> Missing(b, ways) == {})
    && (short ==> Missing(b, ways) != {})
  }

  lemma FillsNothing(a: Snap)
    requires a.inode.Shape()
    ensures Fills(a, a, {}, true, false)
  {
  }

  lemma FillsMore(a: Snap, b: Snap, c: Snap, w1: set<Slot>, w2: set<Slot>, done: bool, short: bool)
    requires a.inode.Shape() && b.inode.Shape() && c.inode.Shape()
    requires Fills(a, b, w1, true, false) && Fills(b, c, w2, done, short)
    ensures Fills(a, c, w1 + w2, done, short)
  {
    hide Ptr;
    if done {
      forall t | t in w1 + w2 && ValidSlot(t)
        ensures c.At(t) != 0
      {
        if t in w2 {
          assert t !in Missing(c, w2);
        } else {
          assert t !in Missing(b, w1);
        }
      }
    }
    if short {
      assert Missing(c, w2) <= Missing(c, w1 + w2);
    }
  }

  lemma FillsWiden(a: Snap, b: Snap, w1: set<Slot>, w2: set<Slot>, short: bool)
    requires a.inode.Shape() && b.inode.Shape() && Fills(a, b, w1, false, short) && w1 <= w2
    ensures Fills(a, b, w2, false, short)
  {
    hide Ptr;
    assert Missing(b, w1) <= Missing(b, w2);
  }

  /** Data that is written does not matter. */
  lemma FillsSame(a: Snap, b: Snap, c: Snap, ways: set<Slot>, done: bool, short: bool)
    requires a.inode.Shape() && b.inode.Shape() && c.inode.Shape() && Fills(a, b, ways, done, short)
    requires forall s | ValidSlot(s) :: c.At(s) == b.At(s)
    ensures Fills(a, c, ways, done, short)
  {
    hide Ptr;
    assert Missing(c, ways) == Missing(b, ways);
  }

  /** What sfs_bmap fills in when it may allocate. */
  lemma MapFills(a: Snap, b: Snap, ino: nat, fb: nat, r: BlockResult)
    requires a.inode.Shape() && b.inode.Shape() && Grows(a, b, ino, WayTo(fb))
    requires PlaceOf(fb).At? && Maps(a, b, PlaceOf(fb).slot, true, r)
    ensures Fills(a, b, WayTo(fb), r.Block?, r == Failed(ENOSPC))
  {
    hide Ptr, LostBy;
    var s := PlaceOf(fb).slot;
    assert s == IndexesOf(fb);
    PrefixesGrow(s, |s.path|);
    assert Prefix(s, |s.path|) in WayTo(fb);
    if r.Block? {
      forall t | t in WayTo(fb)
        ensures ValidSlot(t) && b.At(t) != 0
      {
        var k :| 0 <= k <= |s.path| && t == Prefix(s, k);
        FullPrefix(b, s, k);
      }
    } else {
      assert s in Missing(b, WayTo(fb));
    }
  }

  lemma {:induction false} WaysSplit(lo: nat, mid: nat, hi: nat)
    requires lo <= mid <= hi
    ensures WaysTo(lo, hi) == WaysTo(lo, mid) + WaysTo(mid, hi)
    decreases hi
  {
    hide WayTo;
    if mid < hi {
      WaysSplit(lo, mid, hi - 1);
    }
  }

  lemma OneWay(fb: nat)
    ensures WaysTo(fb, fb + 1) == WayTo(fb)
  {
    hide WayTo;
    assert WaysTo(fb, fb) == {};
  }

  // ----- counting

  /** The blocks `xs` are those that the pointers `slots` lead to, one each. */
  ghost predicate Matched(b: Snap, xs: set<nat>, slots: set<Slot>)
    requires b.inode.Shape()
  {
    && (forall x | x in xs :: x in b.owner && b.owner[x].Tree? && b.owner[x].slot in slots)
    && (forall x | x in xs :: ValidSlot(b.owner[x].slot) && b.At(b.owner[x].slot) == x)
    && (forall s | s in slots :: ValidSlot(s) && b.At(s) in xs && b.owner[b.At(s)].Tree? && b.owner[b.At(s)].slot == s)
  }

  lemma {:induction false} MatchedSizes(b: Snap, xs: set<nat>, slots: set<Slot>)
    requires b.inode.Shape() && Matched(b, xs, slots)
    ensures |xs| == |slots|
    decreases |slots|
  {
    hide Ptr;
    if slots == {} {
      assert xs == {};
    } else {
      var s :| s in slots;
      MatchedSizes(b, xs - {b.At(s)}, slots - {s});
    }
  }

  /** Every pointer that was filled in took one block, and every block that was taken filled in a pointer. */
  lemma Filled(a: Snap, b: Snap, ino: nat, ways: set<Slot>, done: bool, short: bool, all: set<Slot>)
    requires a.Ok(ino) && b.Ok(ino) && GrowsOwners(a, b, ino) && NoneLost(a, b)
    requires Fills(a, b, ways, done, short) && ways <= all
    ensures Missing(b, all) <= Missing(a, all)
    ensures Matched(b, b.owner.Keys - a.owner.Keys, Missing(a, all) - Missing(b, all))
  {
    hide Ptr;
    forall s | s in Missing(a, all) - Missing(b, all)
      ensures b.At(s) in b.owner && b.At(s) !in a.owner && b.owner[b.At(s)] == Tree(ino, s)
    {
      SlotInVolume(b, ino, s);
      if b.At(s) in a.owner {
        assert false;
      }
    }
    forall x | x in b.owner.Keys - a.owner.Keys
      ensures b.owner[x].Tree? && ValidSlot(b.owner[x].slot) && b.At(b.owner[x].slot) == x
      ensures b.owner[x].slot in Missing(a, all) - Missing(b, all)
    {
      var s := b.owner[x].slot;
      if a.At(s) != 0 {
        SlotInVolume(a, ino, s);
      }
    }
  }

  /** The blocks in use and the pointers to fill in among `all` add up to the same number before and after. */
  lemma Conserved(a: Snap, b: Snap, ino: nat, ways: set<Slot>, done: bool, short: bool, all: set<Slot>)
    requires a.Ok(ino) && b.Ok(ino) && GrowsOwners(a, b, ino) && NoneLost(a, b)
    requires Fills(a, b, ways, done, short) && ways <= all
    ensures |b.owner| + |Missing(b, all)| == |a.owner| + |Missing(a, all)|
  {
    hide Ptr, Missing, Matched, TreeOk, Fills;
    Filled(a, b, ino, ways, done, short, all);
    MatchedSizes(b, b.owner.Keys - a.owner.Keys, Missing(a, all) - Missing(b, all));
    assert a.owner.Keys <= b.owner.Keys;
    Difference(a.owner.Keys, b.owner.Keys);
    Difference(Missing(b, all), Missing(a, all));
  }

  lemma Difference<T>(x: set<T>, y: set<T>)
    requires x <= y
    ensures |y - x| == |y| - |x|
  {
    assert y == x + (y - x);
  }

  function Below(n: nat): (s: set<nat>)
    ensures |s| == n && forall x: nat :: x in s <==> x < n
  {
    if n == 0 then {} else Below(n - 1) + {n - 1}
  }

  lemma SubsetSize<T>(x: set<T>, y: set<T>)
    requires x <= y
    ensures |x| <= |y|
  {
    Difference(x, y);
  }

  /** A transfer runs short of space exactly when fewer blocks are free than pointers have to be filled in. */
  lemma SpaceNeeded(a: Snap, b: Snap, ino: nat, ways: set<Slot>, done: bool, short: bool)
    requires a.Ok(ino) && b.Ok(ino) && GrowsOwners(a, b, ino) && NoneLost(a, b) && |b.disk| == |a.disk|
    requires Fills(a, b, ways, done, short) && (done || short)
    requires forall x: nat | x in b.owner :: x < |b.disk|
    requires short ==> forall x: nat | x < |b.disk| :: x in b.owner
    ensures short <==> |a.disk| < |a.owner| + |Missing(a, ways)|
  {
    hide Ptr, Missing, TreeOk;
    Conserved(a, b, ino, ways, done, short, ways);
    SubsetSize(b.owner.Keys, Below(|b.disk|));
    if short {
      SubsetSize(Below(|b.disk|), b.owner.Keys);
    }
  }

  lemma {:induction false} PrefixCount(s: Slot, k: nat)
    requires k <= |s.path|
    ensures |PrefixesTo(s, k)| <= k + 1
  {
    if k == 0 {
      PrefixesGrow(s, 0);
    } else {
      PrefixCount(s, k - 1);
      PrefixStep(s, k - 1);
    }
  }

  /** There are at most four pointers on the way to a block of a file. */
  lemma WayLength(fb: nat)
    ensures |WayTo(fb)| <= 4
  {
    var s := IndexesOf(fb);
    PrefixCount(s, |s.path|);
  }

  lemma {:induction false} WaysLength(lo: nat, hi: nat)
    requires lo <= hi
    ensures |WaysTo(lo, hi)| <= 4 * (hi - lo)
    decreases hi
  {
    hide WayTo;
    if lo < hi {
      WaysLength(lo, hi - 1);
      WayLength(hi - 1);
      Union(WaysTo(lo, hi - 1), WayTo(hi - 1));
    }
  }

  lemma Union<T>(x: set<T>, y: set<T>)
    ensures |x + y| <= |x| + |y|
  {
    assert x + y == x + (y - x);
    SubsetSize(y - x, y);
  }
}
