/** The kernel's queue of pointers: a ring that always keeps one slot empty and grows by doubling. */
module Queue {
  const INT_LIMIT: int := 0x8000_0000

  /** 0, ENOMEM, or a failed assertion. */
  datatype Result = Ok | NoMemory | Panicked

  /** The elements from slot `r` up to slot `w`, going around the ring. */
  function Ring<T>(data: seq<T>, r: nat, w: nat): (s: seq<T>)
    requires r < |data| && w < |data|
    ensures |s| == if r <= w then w - r else |data| - r + w
    ensures |s| < |data|
  {
    if r <= w then data[r..w] else data[r..] + data[..w]
  }

  /** The slot after `i` in a ring of `n`. */
  function Next(i: nat, n: nat): (j: nat)
    requires i < n
    ensures j < n && j == if i + 1 == n then 0 else i + 1
  {
    (i + 1) % n
  }

  /** Element `k` of the ring lies `k` slots after the first. */
  lemma RingAt<T>(data: seq<T>, r: nat, w: nat, k: nat)
    requires r < |data| && w < |data| && k < |Ring(data, r, w)|
    ensures Ring(data, r, w)[k] == data[if r + k < |data| then r + k else r + k - |data|]
  {
  }

  /** The ring is full, in the sense of the code, when all slots but one are taken. */
  lemma FullMeans<T>(data: seq<T>, r: nat, w: nat)
    requires r < |data| && w < |data|
    ensures Next(w, |data|) == r <==> |Ring(data, r, w)| == |data| - 1
    ensures w == r <==> Ring(data, r, w) == []
  {
  }

  /** Writing the slot at the end of a ring that is not full appends. */
  lemma RingAppend<T>(data: seq<T>, r: nat, w: nat, x: T)
    requires r < |data| && w < |data| && Next(w, |data|) != r
    ensures Ring(data[w := x], r, Next(w, |data|)) == Ring(data, r, w) + [x]
  {
    var s, t := Ring(data[w := x], r, Next(w, |data|)), Ring(data, r, w) + [x];
    forall k: nat | k < |s|
      ensures s[k] == t[k]
    {
      RingAt(data[w := x], r, Next(w, |data|), k);
      if k < |t| - 1 {
        RingAt(data, r, w, k);
      }
    }
  }

  lemma RingDrop<T>(data: seq<T>, r: nat, w: nat)
    requires r < |data| && w < |data| && r != w
    ensures Ring(data, r, w) == [data[r]] + Ring(data, Next(r, |data|), w)
  {
  }

  /** The size that doubling reaches. */
  function Doubled(size: int, target: int): (n: int)
    requires 0 < size < INT_LIMIT - 1 && target < INT_LIMIT
    ensures size <= n < INT_LIMIT - 1 && (size < target <= INT_LIMIT / 2 ==> target <= n < 2 * target)
    decreases INT_LIMIT - size
  {
    if size >= target || 2 * size >= INT_LIMIT then size else Doubled(2 * size, target)
  }

  /** The doubling loop of q_grow; a result below the target stands for its failed assertion. */
  method NewSize(size: int, target: int) returns (nsize: int)
    requires 0 < size < INT_LIMIT - 1 && target < INT_LIMIT
    ensures nsize == Doubled(size, target)
  {
    nsize := size;
    while nsize < target
      invariant size <= nsize < INT_LIMIT - 1 && Doubled(nsize, target) == Doubled(size, target)
      decreases target - nsize
    {
      if nsize * 2 >= INT_LIMIT {
        return;
      }
      nsize := nsize * 2;
    }
  }

  class Queue<T(0)> {
    var size: int
    var nextwrite: int
    var nextread: int
    var data: array<T>

    ghost predicate Valid()
      reads this
    {
      && 0 < size < INT_LIMIT - 1 && data.Length == size && 0 <= nextread < size && 0 <= nextwrite < size
    }

    /** What the queue holds, first out first. */
    ghost function Contents(): (s: seq<T>)
      requires Valid()
      reads this, data
      ensures |s| < size
    {
      Ring(data[..], nextread, nextwrite)
    }

    /** Only size - 1 elements fit. */
    ghost predicate Full()
      requires Valid()
      reads this, data
    {
      |Contents()| == size - 1
    }

    /** q_create; the size is positive. */
    constructor (n: int)
      requires 0 < n < INT_LIMIT - 1
      ensures Valid() && Contents() == [] && size == n && fresh(data)
    {
      size := n;
      data := new T[n];
      nextread := 0;
      nextwrite := 0;
    }

    method Empty() returns (e: bool)
      requires Valid()
      ensures e <==> Contents() == []
    {
      e := nextwrite == nextread;
    }

    /** `memory` says whether kmalloc succeeds. A queue that cannot grow is as it was. */
    method Grow(target: int, memory: bool) returns (result: Result)
      requires Valid() && size < target < INT_LIMIT
      modifies this
      ensures Valid() && Contents() == old(Contents())
      ensures result.Ok? <==> memory && Doubled(old(size), target) >= target
      ensures result.NoMemory? <==> !memory && Doubled(old(size), target) >= target
      ensures result.Ok? ==> size == Doubled(old(size), target) >= target && fresh(data)
      ensures !result.Ok? ==> size == old(size) && data == old(data)
      decreases 1
    {
      hide Ring, Next, Doubled;
      var olddata, onr, onw, osize := data, nextread, nextwrite, size;
      var nsize := NewSize(size, target);
      if nsize < target {
        return Panicked;
      }
      if !memory {
        return NoMemory;
      }
      ghost var was, od := Contents(), olddata[..];
      size := nsize;
      data := new T[nsize];
      nextread := 0;
      nextwrite := 0;
      FullMeans(data[..], 0, 0);
      var i := onr;
      while i != onw
        invariant Valid() && size == nsize && 0 <= i < osize && fresh(data) && olddata[..] == od
        invariant Contents() + Ring(od, i, onw) == was
        decreases |Ring(od, i, onw)|
      {
        ghost var rest := Ring(od, i, onw);
        RingDrop(od, i, onw);
        ghost var moved := Contents();
        assert !Full();
        var r := AddTail(olddata[i], memory);
        assert moved + rest == (moved + [od[i]]) + Ring(od, Next(i, osize), onw);
        i := Next(i, osize);
      }
      FullMeans(od, i, onw);
      result := Ok;
    }

    method AddTail(x: T, memory: bool) returns (result: Result)
      requires Valid()
      modifies this, data
      ensures Valid()
      ensures old(Full()) ==> (result.Ok? <==> memory && 2 * old(size) < INT_LIMIT)
      ensures old(Full()) ==> (result.NoMemory? <==> !memory && 2 * old(size) < INT_LIMIT)
      ensures !old(Full()) ==> result.Ok?
      ensures Contents() == if result.Ok? then old(Contents()) + [x] else old(Contents())
      ensures size == if old(Full()) && result.Ok? then 2 * old(size) else old(size)
      ensures if old(Full()) && result.Ok? then fresh(data) else data == old(data)
      decreases if Full() then 2 else 0
    {
      var nextnext := Next(nextwrite, size);
      FullMeans(data[..], nextread, nextwrite);
      if nextnext == nextread {
        result := Grow(size + 1, memory);
        if !result.Ok? {
          return;
        }
        nextnext := Next(nextwrite, size);
        FullMeans(data[..], nextread, nextwrite);
      }
      RingAppend(data[..], nextread, nextwrite, x);
      data[nextwrite] := x;
      nextwrite := nextnext;
      result := Ok;
    }

    method Preallocate(n: int, memory: bool) returns (result: Result)
      requires Valid() && n < INT_LIMIT
      modifies this
      ensures Valid() && Contents() == old(Contents())
      ensures n <= old(size) ==> result.Ok?
      ensures n > old(size) ==> (result.Ok? <==> memory && Doubled(old(size), n) >= n)
      ensures n > old(size) ==> (result.NoMemory? <==> !memory && Doubled(old(size), n) >= n)
      ensures size == if n > old(size) && result.Ok? then Doubled(old(size), n) else old(size)
      ensures result.Ok? ==> size >= n
      ensures data == old(data) || fresh(data)
    {
      result := Ok;
      if n > size {
        result := Grow(n, memory);
      }
    }

    method RemHead() returns (x: T)
      requires Valid() && Contents() != []
      modifies this
      ensures Valid() && size == old(size) && data == old(data)
      ensures [x] + Contents() == old(Contents())
    {
      FullMeans(data[..], nextread, nextwrite);
      RingDrop(data[..], nextread, nextwrite);
      x := data[nextread];
      nextread := Next(nextread, size);
    }
  }
}
