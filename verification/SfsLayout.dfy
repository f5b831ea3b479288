/** The on-disk format: blocks of bytes, 32-bit words inside a block, and the inode. */
module SfsLayout {
  const BLOCKSIZE: nat := 512
  const NDIRECT: nat := 15
  const DBPERIDB: nat := 128
  const NWASTE: nat := 107
  const SB_LOCATION: nat := 0
  const ROOT_LOCATION: nat := 1
  const MAP_LOCATION: nat := 2
  const TYPE_INVAL: nat := 0
  const TYPE_FILE: nat := 1
  const TYPE_DIR: nat := 2
  const WORD_LIMIT: nat := 0x1_0000_0000
  const HALF_LIMIT: nat := 0x1_0000

  type byte = x: int | 0 <= x < 256
  type Block = b: seq<byte> | |b| == BLOCKSIZE witness seq(BLOCKSIZE, _ => 0)

  function ZeroBlock(): (b: Block)
    ensures forall i: nat | i < BLOCKSIZE :: b[i] == 0
  {
    seq(BLOCKSIZE, _ => 0)
  }

  /** Arithmetic on the 32-bit counter sfi_blocks wraps around. */
  function Wrap(x: int): (w: nat)
    ensures w < WORD_LIMIT
    ensures 0 <= x < WORD_LIMIT ==> w == x
  {
    x % WORD_LIMIT
  }

  lemma WrapShift(x: int, d: int)
    ensures Wrap(Wrap(x) + d) == Wrap(x + d)
  {
    var q, r := x / WORD_LIMIT, x % WORD_LIMIT;
    var p, t := (r + d) / WORD_LIMIT, (r + d) % WORD_LIMIT;
    assert x + d == (q + p) * WORD_LIMIT + t;
  }

  // ----- words in a block, most significant byte first

  function Word(b0: byte, b1: byte, b2: byte, b3: byte): (w: nat) {
    b0 * 0x100_0000 + b1 * 0x1_0000 + b2 * 0x100 + b3
  }

  function ByteOf(w: nat, k: nat): byte
    requires w < WORD_LIMIT && k < 4
  {
    if k == 0 then w / 0x100_0000
    else if k == 1 then w / 0x1_0000 % 0x100
    else if k == 2 then w / 0x100 % 0x100
    else w % 0x100
  }

  lemma WordOfBytes(w: nat)
    requires w < WORD_LIMIT
    ensures Word(ByteOf(w, 0), ByteOf(w, 1), ByteOf(w, 2), ByteOf(w, 3)) == w
  {
    assert w / 0x1_0000 == (w / 0x100) / 0x100;
    assert w / 0x100_0000 == (w / 0x1_0000) / 0x100;
  }

  predicate FitWords(ws: seq<nat>) {
    |ws| == DBPERIDB && forall k: nat | k < DBPERIDB :: ws[k] < WORD_LIMIT
  }

  function Words(b: Block): (ws: seq<nat>)
    ensures |ws| == DBPERIDB
  {
    seq(DBPERIDB, k requires 0 <= k < DBPERIDB => Word(b[4 * k], b[4 * k + 1], b[4 * k + 2], b[4 * k + 3]))
  }

  function WordBlock(ws: seq<nat>): Block
    requires FitWords(ws)
  {
    seq(BLOCKSIZE, i requires 0 <= i < BLOCKSIZE => ByteOf(ws[i / 4], i % 4))
  }

  /** Writing a buffer of words and reading it back gives the same words. */
  lemma WordsRoundTrip(ws: seq<nat>)
    requires FitWords(ws)
    ensures Words(WordBlock(ws)) == ws
  {
    var b := WordBlock(ws);
    forall k: nat | k < DBPERIDB
      ensures Words(b)[k] == ws[k]
    {
      assert b[4 * k] == ByteOf(ws[k], 0);
      assert b[4 * k + 1] == ByteOf(ws[k], 1);
      assert b[4 * k + 2] == ByteOf(ws[k], 2);
      assert b[4 * k + 3] == ByteOf(ws[k], 3);
      WordOfBytes(ws[k]);
    }
  }

  /** A cleared block reads as words that are all zero. */
  lemma ZeroBlockWords()
    ensures Words(ZeroBlock()) == seq(DBPERIDB, _ => 0)
  {
  }

  /** Whatever is read from a block can be written back. */
  lemma WordsFit(b: Block)
    ensures FitWords(Words(b))
  {
    var ws := Words(b);
    forall k: nat | k < DBPERIDB
      ensures ws[k] < WORD_LIMIT
    {
      assert ws[k] == Word(b[4 * k], b[4 * k + 1], b[4 * k + 2], b[4 * k + 3]);
    }
  }

  // ----- the inode

  datatype Inode = Inode(
    size: nat, typ: nat, linkcount: nat,
    direct: seq<nat>, indirect: nat, doubleindirect: nat, tripleindirect: nat,
    waste: seq<nat>, blocks: nat)
  {
    predicate Shape() { |direct| == NDIRECT && |waste| == NWASTE }

    /** Every field is within its width, so that the inode can be written to disk. */
    predicate Fits() {
      && Shape() && size < WORD_LIMIT && typ < HALF_LIMIT && linkcount < HALF_LIMIT
      && (forall i: nat | i < NDIRECT :: direct[i] < WORD_LIMIT)
      && indirect < WORD_LIMIT && doubleindirect < WORD_LIMIT && tripleindirect < WORD_LIMIT
      && (forall i: nat | i < NWASTE :: waste[i] < WORD_LIMIT)
      && blocks < WORD_LIMIT
    }
  }

  function InodeWords(n: Inode): (ws: seq<nat>)
    requires n.Shape()
    ensures |ws| == DBPERIDB
  {
    [n.size, n.typ * HALF_LIMIT + n.linkcount] + n.direct
    + [n.indirect, n.doubleindirect, n.tripleindirect] + n.waste + [n.blocks]
  }

  function InodeOfWords(ws: seq<nat>): (n: Inode)
    requires |ws| == DBPERIDB
    ensures n.Shape()
  {
    Inode(ws[0], ws[1] / HALF_LIMIT, ws[1] % HALF_LIMIT, ws[2..17], ws[17], ws[18], ws[19], ws[20..127], ws[127])
  }

  lemma InodeWordsFit(n: Inode)
    requires n.Fits()
    ensures FitWords(InodeWords(n)) && InodeOfWords(InodeWords(n)) == n
  {
    var ws := InodeWords(n);
    assert ws[2..17] == n.direct;
    assert ws[20..127] == n.waste;
    forall k: nat | k < DBPERIDB
      ensures ws[k] < WORD_LIMIT
    {
      if 2 <= k < 17 {
        assert ws[k] == n.direct[k - 2];
      } else if 20 <= k < 127 {
        assert ws[k] == n.waste[k - 20];
      }
    }
  }

  function EncodeInode(n: Inode): Block
    requires n.Fits()
  {
    InodeWordsFit(n);
    WordBlock(InodeWords(n))
  }

  function DecodeInode(b: Block): (n: Inode)
    ensures n.Shape()
  {
    InodeOfWords(Words(b))
  }

  /** An inode written to its block is read back unchanged. */
  lemma InodeRoundTrip(n: Inode)
    requires n.Fits()
    ensures DecodeInode(EncodeInode(n)) == n
  {
    InodeWordsFit(n);
    WordsRoundTrip(InodeWords(n));
  }

  lemma DecodedInodeFits(b: Block)
    ensures DecodeInode(b).Fits()
  {
    WordsFit(b);
    var ws := Words(b);
    var n := InodeOfWords(ws);
    forall i: nat | i < NDIRECT
      ensures n.direct[i] < WORD_LIMIT
    {
      assert n.direct[i] == ws[2 + i];
    }
    forall i: nat | i < NWASTE
      ensures n.waste[i] < WORD_LIMIT
    {
      assert n.waste[i] == ws[20 + i];
    }
  }

  /** The inode that a cleared block holds: of invalid type, with no links and no blocks. */
  function FreshInode(): (n: Inode)
    ensures n.Fits()
  {
    Inode(0, TYPE_INVAL, 0, seq(NDIRECT, _ => 0), 0, 0, 0, seq(NWASTE, _ => 0), 0)
  }

  lemma ZeroWordsInode(ws: seq<nat>)
    requires |ws| == DBPERIDB && forall k: nat | k < DBPERIDB :: ws[k] == 0
    ensures InodeOfWords(ws) == FreshInode()
  {
    assert ws[2..17] == FreshInode().direct;
    assert ws[20..127] == FreshInode().waste;
  }

  lemma ClearedBlockInode()
    ensures DecodeInode(ZeroBlock()) == FreshInode()
  {
    ZeroBlockWords();
    ZeroWordsInode(Words(ZeroBlock()));
  }
}
