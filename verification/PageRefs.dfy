/** The bitmap that says which page references of the kernel heap are in use. */
module PageRefs {
  const NPAGEREFS: nat := 256
  const INUSE_WORDS: nat := 8
  const FULL: bv32 := 0xffffffff

  function Mask(o: nat): bv32
    requires o < 32
  {
    (1 as bv32) << o
  }

  function And(w: bv32, m: bv32): bv32 {
    w & m
  }

  function Or(w: bv32, m: bv32): bv32 {
    w | m
  }

  function AndNot(w: bv32, m: bv32): bv32 {
    w & !m
  }

  predicate HasBit(w: bv32, o: nat)
    requires o < 32
  {
    And(w, Mask(o)) != 0
  }

  function SetIn(w: bv32, o: nat): bv32
    requires o < 32
  {
    Or(w, Mask(o))
  }

  function ClearIn(w: bv32, o: nat): bv32
    requires o < 32
  {
    AndNot(w, Mask(o))
  }

  /** Page reference `r` is in use. */
  predicate Used(words: seq<bv32>, r: nat)
    requires |words| == INUSE_WORDS && r < NPAGEREFS
  {
    HasBit(words[r / 32], r % 32)
  }

  lemma MasksMeet(o: nat, p: nat)
    requires o < 32 && p < 32
    ensures And(Mask(o), Mask(p)) == if o == p then Mask(o) else 0
  {
  }

  lemma MaskNotZero(o: nat)
    requires o < 32
    ensures Mask(o) != 0
  {
  }

  lemma OrBits(w: bv32, m: bv32, n: bv32)
    ensures And(m, n) == 0 ==> And(Or(w, m), n) == And(w, n)
    ensures And(Or(w, m), m) == m
  {
  }

  lemma AndNotBits(w: bv32, m: bv32, n: bv32)
    ensures And(m, n) == 0 ==> And(AndNot(w, m), n) == And(w, n)
    ensures And(AndNot(w, m), m) == 0
  {
  }

  lemma SetBit(w: bv32, o: nat, p: nat)
    requires o < 32 && p < 32
    ensures HasBit(SetIn(w, o), p) == (o == p || HasBit(w, p))
  {
    hide Mask, And, Or;
    MasksMeet(o, p);
    MaskNotZero(o);
    OrBits(w, Mask(o), Mask(p));
  }

  lemma ClearBit(w: bv32, o: nat, p: nat)
    requires o < 32 && p < 32
    ensures HasBit(ClearIn(w, o), p) == (o != p && HasBit(w, p))
  {
    hide Mask, And, AndNot;
    MasksMeet(o, p);
    AndNotBits(w, Mask(o), Mask(p));
  }

  lemma FullHasAll(p: nat)
    requires p < 32
    ensures HasBit(FULL, p)
  {
  }

  /** A word in which no bit is clear is full. */
  lemma AllMeansFull(w: bv32)
    requires forall p: nat | p < 32 :: HasBit(w, p)
    ensures w == FULL
  {
    assert HasBit(w, 0) && HasBit(w, 1) && HasBit(w, 2) && HasBit(w, 3) && HasBit(w, 4) && HasBit(w, 5) && HasBit(w, 6)
        && HasBit(w, 7);
    assert HasBit(w, 8) && HasBit(w, 9) && HasBit(w, 10) && HasBit(w, 11) && HasBit(w, 12) && HasBit(w, 13)
        && HasBit(w, 14) && HasBit(w, 15);
    assert HasBit(w, 16) && HasBit(w, 17) && HasBit(w, 18) && HasBit(w, 19) && HasBit(w, 20) && HasBit(w, 21)
        && HasBit(w, 22) && HasBit(w, 23);
    assert HasBit(w, 24) && HasBit(w, 25) && HasBit(w, 26) && HasBit(w, 27) && HasBit(w, 28) && HasBit(w, 29)
        && HasBit(w, 30) && HasBit(w, 31);
  }

  lemma MaskShift(j: nat)
    requires j < 32
    ensures Mask(j) << 1 == if j < 31 then Mask(j + 1) else 0
    ensures Mask(j) != 0
  {
  }

  /** The words with the bit of `r` set. */
  function Claimed(words: seq<bv32>, r: nat): (w: seq<bv32>)
    requires |words| == INUSE_WORDS && r < NPAGEREFS
    ensures |w| == INUSE_WORDS
  {
    words[r / 32 := SetIn(words[r / 32], r % 32)]
  }

  /** The words with the bit of `r` cleared. */
  function Released(words: seq<bv32>, r: nat): (w: seq<bv32>)
    requires |words| == INUSE_WORDS && r < NPAGEREFS
    ensures |w| == INUSE_WORDS
  {
    words[r / 32 := ClearIn(words[r / 32], r % 32)]
  }

  /** Claiming a page reference makes it, and no other, used. */
  lemma UseOne(words: seq<bv32>, r: nat)
    requires |words| == INUSE_WORDS && r < NPAGEREFS
    ensures forall q: nat | q < NPAGEREFS :: Used(Claimed(words, r), q) == (q == r || Used(words, q))
  {
    hide HasBit, SetIn, ClearIn;
    forall q: nat | q < NPAGEREFS
      ensures Used(Claimed(words, r), q) == (q == r || Used(words, q))
    {
      SetBit(words[r / 32], r % 32, q % 32);
    }
  }

  lemma FreeOne(words: seq<bv32>, r: nat)
    requires |words| == INUSE_WORDS && r < NPAGEREFS
    ensures forall q: nat | q < NPAGEREFS :: Used(Released(words, r), q) == (q != r && Used(words, q))
  {
    hide HasBit, SetIn, ClearIn;
    forall q: nat | q < NPAGEREFS
      ensures Used(Released(words, r), q) == (q != r && Used(words, q))
    {
      ClearBit(words[r / 32], r % 32, q % 32);
    }
  }

  lemma OrThenClear(w: bv32, o: nat)
    requires o < 32 && !HasBit(w, o)
    ensures ClearIn(SetIn(w, o), o) == w
  {
    hide Mask;
  }

  /** Claiming a free page reference and releasing it again changes nothing. */
  lemma ClaimThenRelease(words: seq<bv32>, r: nat)
    requires |words| == INUSE_WORDS && r < NPAGEREFS && !Used(words, r)
    ensures Released(Claimed(words, r), r) == words
  {
    hide HasBit, SetIn, ClearIn;
    OrThenClear(words[r / 32], r % 32);
  }

  /** The mask that the inner loop of allocpageref tries in round `j`; it has run out after the last bit. */
  function Try(j: nat): bv32 {
    if j < 32 then Mask(j) else 0
  }

  lemma NextTry(j: nat)
    requires j < 32
    ensures Try(j) << 1 == Try(j + 1)
  {
    MaskShift(j);
  }

  lemma Tried(j: nat)
    ensures Try(j) != 0 <==> j < 32
    ensures j < 32 ==> Try(j) == Mask(j)
  {
    if j < 32 {
      MaskShift(j);
    }
  }

  lemma ClearMask(w: bv32, j: nat, k: bv32)
    requires j < 32 && k == Mask(j)
    ensures w & k == 0 <==> !HasBit(w, j)
  {
    hide Mask;
  }

  /** The inner loop of allocpageref: the mask runs through the bits; its assertion cannot fail. */
  method FirstClear(w: bv32) returns (j: nat)
    requires w != FULL
    ensures j < 32 && !HasBit(w, j) && forall p: nat | p < j :: HasBit(w, p)
  {
    hide HasBit, Mask, Try;
    var k: bv32 := 1;
    j := 0;
    FirstMask();
    Tried(j);
    while k != 0
      invariant j <= 32 && k == Try(j) && (k != 0 <==> j < 32)
      invariant forall p: nat | p < j :: HasBit(w, p)
      decreases 32 - j
    {
      Tried(j);
      ClearMask(w, j, k);
      if w & k == 0 {
        return;
      }
      NextTry(j);
      Tried(j + 1);
      k := k << 1;
      j := j + 1;
    }
    AllMeansFull(w);
    assert false;
  }

  lemma FirstMask()
    ensures Try(0) == 1
  {
  }
}
