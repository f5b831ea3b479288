/** The free-block bitmap: an array of bits packed eight to a byte. */
module Bitmap {
  const BITS_PER_WORD: nat := 8
  const WORD_ALLBITS: bv8 := 0xff

  /** The mask that selects bit `offset` of a byte. */
  function Bit(offset: nat): bv8
    requires offset < BITS_PER_WORD
  {
    (1 as bv8) << offset
  }

  /** DIVROUNDUP(nbits, BITS_PER_WORD). */
  function WordsFor(nbits: nat): nat {
    (nbits + BITS_PER_WORD - 1) / BITS_PER_WORD
  }

  predicate IsSet(v: seq<bv8>, i: nat)
    requires i < |v| * BITS_PER_WORD
  {
    v[i / BITS_PER_WORD] & Bit(i % BITS_PER_WORD) != 0
  }

  /** The set of the bits below `nbits` that are marked: what the bytes mean. */
  ghost function MarkedBits(v: seq<bv8>, nbits: nat): (s: set<nat>)
    requires nbits <= |v| * BITS_PER_WORD
  {
    set i: nat | i < nbits && IsSet(v, i)
  }

  lemma OrSetsOneBit(w: bv8, o: nat, p: nat)
    requires o < BITS_PER_WORD && p < BITS_PER_WORD
    ensures ((w | Bit(o)) & Bit(p) != 0) == (o == p || w & Bit(p) != 0)
  {
  }

  lemma AndNotClearsOneBit(w: bv8, o: nat, p: nat)
    requires o < BITS_PER_WORD && p < BITS_PER_WORD
    ensures ((w & !Bit(o)) & Bit(p) != 0) == (o != p && w & Bit(p) != 0)
  {
  }

  lemma AllBitsSet(w: bv8, p: nat)
    requires p < BITS_PER_WORD && w == WORD_ALLBITS
    ensures w & Bit(p) != 0
  {
  }

  lemma SomeBitClear(w: bv8)
    requires forall p: nat | p < BITS_PER_WORD :: w & Bit(p) != 0
    ensures w == WORD_ALLBITS
  {
    assert w & Bit(0) != 0 && w & Bit(1) != 0 && w & Bit(2) != 0 && w & Bit(3) != 0;
    assert w & Bit(4) != 0 && w & Bit(5) != 0 && w & Bit(6) != 0 && w & Bit(7) != 0;
  }

  /** Setting one bit of one byte adds exactly that bit number. */
  lemma SetBitMarks(v: seq<bv8>, v': seq<bv8>, i: nat)
    requires i < |v| * BITS_PER_WORD && |v'| == |v|
    requires v' == v[i / BITS_PER_WORD := v[i / BITS_PER_WORD] | Bit(i % BITS_PER_WORD)]
    ensures forall j: nat | j < |v| * BITS_PER_WORD :: IsSet(v', j) == (j == i || IsSet(v, j))
  {
    forall j: nat | j < |v| * BITS_PER_WORD
      ensures IsSet(v', j) == (j == i || IsSet(v, j))
    {
      OrSetsOneBit(v[i / BITS_PER_WORD], i % BITS_PER_WORD, j % BITS_PER_WORD);
    }
  }

  /** Clearing one bit of one byte removes exactly that bit number. */
  lemma ClearBitUnmarks(v: seq<bv8>, v': seq<bv8>, i: nat)
    requires i < |v| * BITS_PER_WORD && |v'| == |v|
    requires v' == v[i / BITS_PER_WORD := v[i / BITS_PER_WORD] & !Bit(i % BITS_PER_WORD)]
    ensures forall j: nat | j < |v| * BITS_PER_WORD :: IsSet(v', j) == (j != i && IsSet(v, j))
  {
    forall j: nat | j < |v| * BITS_PER_WORD
      ensures IsSet(v', j) == (j != i && IsSet(v, j))
    {
      AndNotClearsOneBit(v[i / BITS_PER_WORD], i % BITS_PER_WORD, j % BITS_PER_WORD);
    }
  }

  lemma FullByte(v: seq<bv8>, ix: nat)
    requires ix < |v| && v[ix] == WORD_ALLBITS
    requires forall i: nat | i < ix * BITS_PER_WORD :: IsSet(v, i)
    ensures forall i: nat | i < (ix + 1) * BITS_PER_WORD :: IsSet(v, i)
  {
    forall i: nat | ix * BITS_PER_WORD <= i < (ix + 1) * BITS_PER_WORD
      ensures IsSet(v, i)
    {
      AllBitsSet(v[ix], i % BITS_PER_WORD);
    }
  }

  lemma MarkedAfterSet(v: seq<bv8>, v': seq<bv8>, i: nat, nbits: nat)
    requires i < nbits <= |v| * BITS_PER_WORD && |v'| == |v|
    requires v' == v[i / BITS_PER_WORD := v[i / BITS_PER_WORD] | Bit(i % BITS_PER_WORD)]
    ensures MarkedBits(v', nbits) == MarkedBits(v, nbits) + {i}
    ensures forall j: nat | nbits <= j < |v| * BITS_PER_WORD :: IsSet(v', j) == IsSet(v, j)
  {
    SetBitMarks(v, v', i);
  }

  lemma MarkedAfterClear(v: seq<bv8>, v': seq<bv8>, i: nat, nbits: nat)
    requires i < nbits <= |v| * BITS_PER_WORD && |v'| == |v|
    requires v' == v[i / BITS_PER_WORD := v[i / BITS_PER_WORD] & !Bit(i % BITS_PER_WORD)]
    ensures MarkedBits(v', nbits) == MarkedBits(v, nbits) - {i}
    ensures forall j: nat | nbits <= j < |v| * BITS_PER_WORD :: IsSet(v', j) == IsSet(v, j)
  {
    ClearBitUnmarks(v, v', i);
  }

  /** Marking a clear bit of byte `ix` that comes after nothing but set bits marks the least free bit. */
  lemma AllocMarksLeast(v: seq<bv8>, v': seq<bv8>, ix: nat, offset: nat, nbits: nat)
    requires nbits <= |v| * BITS_PER_WORD && ix < |v| && offset < BITS_PER_WORD
    requires v' == v[ix := v[ix] | Bit(offset)]
    requires forall i: nat | i < ix * BITS_PER_WORD :: IsSet(v, i)
    requires forall i: nat | nbits <= i < |v| * BITS_PER_WORD :: IsSet(v, i)
    requires forall p: nat | p < offset :: v[ix] & Bit(p) != 0
    requires v[ix] & Bit(offset) == 0
    ensures ix * BITS_PER_WORD + offset < nbits
    ensures ix * BITS_PER_WORD + offset !in MarkedBits(v, nbits)
    ensures forall i: nat | i < ix * BITS_PER_WORD + offset :: i in MarkedBits(v, nbits)
    ensures MarkedBits(v', nbits) == MarkedBits(v, nbits) + {ix * BITS_PER_WORD + offset}
    ensures forall j: nat | nbits <= j < |v| * BITS_PER_WORD :: IsSet(v', j)
  {
    var index := ix * BITS_PER_WORD + offset;
    assert index / BITS_PER_WORD == ix && index % BITS_PER_WORD == offset;
    assert !IsSet(v, index);
    forall i: nat | ix * BITS_PER_WORD <= i < index
      ensures IsSet(v, i)
    {
      assert i / BITS_PER_WORD == ix && i % BITS_PER_WORD < offset;
    }
    MarkedAfterSet(v, v', index, nbits);
  }

  lemma AllMarked(v: seq<bv8>, nbits: nat)
    requires nbits <= |v| * BITS_PER_WORD && forall i: nat | i < nbits :: IsSet(v, i)
    ensures forall i: nat | i < nbits :: i in MarkedBits(v, nbits)
  {
  }

  /** The inner loop of bitmap_alloc: there is a clear bit, and the search finds the least one. */
  method FirstClearBit(w: bv8) returns (offset: nat)
    requires w != WORD_ALLBITS
    ensures offset < BITS_PER_WORD && w & Bit(offset) == 0
    ensures forall p: nat | p < offset :: w & Bit(p) != 0
  {
    offset := 0;
    while offset < BITS_PER_WORD
      invariant offset <= BITS_PER_WORD
      invariant forall p: nat | p < offset :: w & Bit(p) != 0
    {
      if w & Bit(offset) == 0 {
        return;
      }
      offset := offset + 1;
    }
    SomeBitClear(w);
    assert false;
  }

  datatype AllocResult = Got(index: nat) | NoSpace

  /** bitmap.c: struct bitmap. */
  class BitMap {
    const nbits: nat
    const v: array<bv8>

    /** The bits that pad the last byte are always marked, so that they are never handed out. */
    ghost predicate Valid()
      reads v
    {
      && v.Length == WordsFor(nbits)
      && forall i: nat | nbits <= i < v.Length * BITS_PER_WORD :: IsSet(v[..], i)
    }

    ghost function Marked(): (s: set<nat>)
      requires Valid()
      reads v
    {
      MarkedBits(v[..], nbits)
    }

    /** bitmap_create: nothing is marked except the padding. */
    constructor (n: nat)
      ensures Valid() && fresh(v) && nbits == n
      ensures Marked() == {}
    {
      var words := WordsFor(n);
      nbits := n;
      v := new bv8[words](_ => 0);
      new;
      forall i: nat | i < nbits
        ensures !IsSet(v[..], i)
      {
        assert v[..][i / BITS_PER_WORD] == 0;
      }
      if n / BITS_PER_WORD < words {
        var ix := words - 1;
        var overbits := n - ix * BITS_PER_WORD;
        var j := overbits;
        while j < BITS_PER_WORD
          invariant 0 < overbits <= j <= BITS_PER_WORD
          invariant forall i: nat | i < v.Length * BITS_PER_WORD ::
                      IsSet(v[..], i) == (nbits <= i < ix * BITS_PER_WORD + j)
        {
          ghost var before := v[..];
          v[ix] := v[ix] | Bit(j);
          SetBitMarks(before, v[..], ix * BITS_PER_WORD + j);
          j := j + 1;
        }
      }
    }

    /** bitmap_alloc: marks the least free bit, or reports that every bit is marked. */
    method Alloc() returns (r: AllocResult)
      requires Valid()
      modifies v
      ensures Valid()
      ensures r.Got? ==> r.index < nbits && r.index !in old(Marked())
      ensures r.Got? ==> forall i: nat | i < r.index :: i in old(Marked())
      ensures r.Got? ==> Marked() == old(Marked()) + {r.index}
      ensures r.NoSpace? ==> v[..] == old(v[..]) && forall i: nat | i < nbits :: i in Marked()
    {
      hide Bit, IsSet, MarkedBits;
      var ix := 0;
      var maxix := WordsFor(nbits);
      while ix < maxix
        invariant ix <= maxix
        invariant v[..] == old(v[..])
        invariant forall i: nat | i < ix * BITS_PER_WORD :: IsSet(v[..], i)
      {
        if v[ix] != WORD_ALLBITS {
          var offset := FirstClearBit(v[ix]);
          v[ix] := v[ix] | Bit(offset);
          AllocMarksLeast(old(v[..]), v[..], ix, offset, nbits);
          return Got(ix * BITS_PER_WORD + offset);
        }
        FullByte(v[..], ix);
        ix := ix + 1;
      }
      AllMarked(v[..], nbits);
      r := NoSpace;
    }

    /** bitmap_mark: the caller must pass a bit that is not marked. */
    method Mark(index: nat)
      requires Valid() && index < nbits && index !in Marked()
      modifies v
      ensures Valid() && Marked() == old(Marked()) + {index}
    {
      ghost var before := v[..];
      v[index / BITS_PER_WORD] := v[index / BITS_PER_WORD] | Bit(index % BITS_PER_WORD);
      MarkedAfterSet(before, v[..], index, nbits);
    }

    /** bitmap_unmark: the caller must pass a bit that is marked. */
    method Unmark(index: nat)
      requires Valid() && index < nbits && index in Marked()
      modifies v
      ensures Valid() && Marked() == old(Marked()) - {index}
    {
      ghost var before := v[..];
      v[index / BITS_PER_WORD] := v[index / BITS_PER_WORD] & !Bit(index % BITS_PER_WORD);
      MarkedAfterClear(before, v[..], index, nbits);
    }

    /** bitmap_isset. */
    method IsMarked(index: nat) returns (b: bool)
      requires Valid() && index < nbits
      ensures b <==> index in Marked()
    {
      b := v[index / BITS_PER_WORD] & Bit(index % BITS_PER_WORD) != 0;
    }
  }
}
