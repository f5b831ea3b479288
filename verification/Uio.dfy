/** uio.c: moving bytes between a kernel buffer and the region that a uio describes. */
module UioModel {
  import opened SfsLayout

  function ZeroBytes(n: nat): (z: seq<byte>)
    ensures |z| == n && forall i: nat | i < n :: z[i] == 0
  {
    seq(n, _ => 0)
  }

  function Splice(mem: seq<byte>, base: nat, data: seq<byte>): (r: seq<byte>)
    requires base + |data| <= |mem|
    ensures |r| == |mem|
  {
    mem[..base] + data + mem[base + |data|..]
  }

  lemma SpliceSplice(mem: seq<byte>, base: nat, d1: seq<byte>, d2: seq<byte>)
    requires base + |d1| + |d2| <= |mem|
    ensures Splice(Splice(mem, base, d1), base + |d1|, d2) == Splice(mem, base, d1 + d2)
  {
  }

  /** The fields of a uio at one moment. */
  datatype UioState = UioState(mem: seq<byte>, base: nat, len: nat, offset: nat, resid: nat)

  /** struct uio for a region of kernel memory: iov_kbase is `base`, an index into `mem`. */
  class Uio {
    var mem: seq<byte>
    var base: nat
    var len: nat
    var offset: nat
    var resid: nat
    const write: bool

    constructor (mem: seq<byte>, pos: nat, write: bool)
      ensures this.mem == mem && base == 0 && len == resid == |mem| && offset == pos && this.write == write
      ensures Valid()
    {
      this.mem := mem;
      this.base := 0;
      this.len := |mem|;
      this.resid := |mem|;
      this.offset := pos;
      this.write := write;
    }

    /** The region has room for all that is still to be transferred. */
    predicate Valid()
      reads this
    {
      base + len <= |mem| && resid <= len
    }

    function Now(): UioState
      reads this
    {
      UioState(mem, base, len, offset, resid)
    }

    /** The bytes that the next `n` bytes of a write would take from the region. */
    function Next(n: nat): (data: seq<byte>)
      requires Valid() && n <= resid
      reads this
    {
      mem[base..base + n]
    }

    /**
     * uiomove: transfers |kbuf| bytes, out of `kbuf` when reading and into the result when writing. The
     * panic on a region that is exhausted too early cannot be reached.
     */
    method Move(kbuf: seq<byte>) returns (kbuf': seq<byte>)
      requires Valid() && |kbuf| <= resid
      modifies this
      ensures Valid() && offset == old(offset) + |kbuf| && resid == old(resid) - |kbuf|
      ensures base == old(base) + |kbuf| && len == old(len) - |kbuf|
      ensures write ==> mem == old(mem) && kbuf' == old(Next(|kbuf|))
      ensures !write ==> kbuf' == kbuf && mem == Splice(old(mem), old(base), kbuf)
    {
      kbuf' := kbuf;
      assert kbuf == [] ==> Splice(mem, base, kbuf) == mem && Next(0) == kbuf;
      var done := 0;
      var n := |kbuf|;
      while n > 0 && resid > 0
        invariant Valid() && n + done == |kbuf| && (done == 0 || n == 0) && n <= resid
        invariant offset == old(offset) + done && resid == old(resid) - done
        invariant base == old(base) + done && len == old(len) - done
        invariant kbuf' == if write && n == 0 then old(Next(|kbuf|)) else kbuf
        invariant mem == if !write && n == 0 then Splice(old(mem), old(base), kbuf) else old(mem)
      {
        var size := if len > n then n else len;
        assert size == n > 0;
        if write {
          kbuf' := mem[base..base + size];
        } else {
          mem := Splice(mem, base, kbuf);
        }
        base := base + size;
        len := len - size;
        resid := resid - size;
        offset := offset + size;
        done := done + size;
        n := n - size;
      }
    }

    /** uiomovezeros: sends `n` zeros, sixteen at a time. */
    method MoveZeros(n: nat)
      requires Valid() && n <= resid && !write
      modifies this
      ensures Valid() && offset == old(offset) + n && resid == old(resid) - n
      ensures base == old(base) + n && len == old(len) - n
      ensures mem == Splice(old(mem), old(base), ZeroBytes(n))
    {
      var left := n;
      assert Splice(mem, base, ZeroBytes(0)) == mem;
      while left > 0
        invariant Valid() && 0 <= left <= n && left <= resid
        invariant offset == old(offset) + (n - left) && resid == old(resid) - (n - left)
        invariant base == old(base) + (n - left) && len == old(len) - (n - left)
        invariant mem == Splice(old(mem), old(base), ZeroBytes(n - left))
      {
        var amt := if 16 > left then left else 16;
        SpliceSplice(old(mem), old(base), ZeroBytes(n - left), ZeroBytes(amt));
        assert ZeroBytes(n - left) + ZeroBytes(amt) == ZeroBytes(n - left + amt);
        var sent := Move(ZeroBytes(amt));
        left := left - amt;
      }
    }
  }
}
