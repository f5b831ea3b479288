/** The kernel's resizable array of pointers. */
module PtrArray {
  /** The capacity that array_preallocate settles on. */
  function NewMax(max: nat, n: nat): (m: nat)
    ensures m >= max && m >= n && (n <= max ==> m == max)
    decreases n - max
  {
    if n > max then NewMax((max + 1) * 2, n) else max
  }

  class PtrArray<T(0)> {
    var num: nat
    var max: nat
    var v: array?<T>

    ghost predicate Valid()
      reads this
    {
      num <= max && (v == null ==> max == 0) && (v != null ==> v.Length == max)
    }

    ghost function Contents(): (s: seq<T>)
      requires Valid()
      reads this, v
      ensures |s| == num
    {
      if v == null then [] else v[..num]
    }

    constructor ()
      ensures Valid() && Contents() == [] && max == 0 && v == null
    {
      num := 0;
      max := 0;
      v := null;
    }

    /** Always asks for memory, even when there is room. */
    method Preallocate(n: nat, memory: bool) returns (ok: bool)
      requires Valid()
      modifies this
      ensures Valid() && Contents() == old(Contents()) && ok == memory
      ensures max == if ok then NewMax(old(max), n) else old(max)
      ensures v == old(v) || (v != null && fresh(v))
    {
      ok := memory;
      var newmax := max;
      while n > newmax
        invariant newmax >= max && NewMax(newmax, n) == NewMax(max, n)
        decreases n - newmax
      {
        newmax := (newmax + 1) * 2;
      }
      if !memory {
        return;
      }
      var newv := new T[newmax];
      var i := 0;
      while i < num
        invariant i <= num && newv[..i] == Contents()[..i]
        modifies newv
      {
        newv[i] := v[i];
        i := i + 1;
      }
      max := newmax;
      v := newv;
    }

    /**
     * The new elements of a larger array are arbitrary. Emptying an array of more than 16 slots gives its
     * memory back.
     */
    method SetSize(n: nat, memory: bool) returns (ok: bool)
      requires Valid()
      modifies this
      ensures Valid()
      ensures ok <==> n <= old(max) || memory
      ensures ok ==> num == n && forall i: nat | i < n && i < old(num) :: Contents()[i] == old(Contents())[i]
      ensures !ok ==> Contents() == old(Contents())
      ensures max == if n > old(max) then (if ok then NewMax(old(max), n) else old(max))
                     else if n == 0 && old(max) > 16 then 0 else old(max)
      ensures v == old(v) || v == null || fresh(v)
      ensures n == 0 ==> v == old(v) || v == null
    {
      ok := true;
      if n > max {
        ok := Preallocate(n, memory);
        if !ok {
          return;
        }
      } else if n == 0 && max > 16 {
        v := null;
        max := 0;
      }
      num := n;
    }

    method Get(i: nat) returns (x: T)
      requires Valid() && i < num
      ensures x == Contents()[i]
    {
      x := v[i];
    }

    method Add(x: T, memory: bool) returns (ok: bool)
      requires Valid()
      modifies this, v
      ensures Valid()
      ensures ok <==> old(num) < old(max) || memory
      ensures Contents() == if ok then old(Contents()) + [x] else old(Contents())
      ensures max == if ok && old(num) == old(max) then NewMax(old(max), old(num) + 1) else old(max)
      ensures v == old(v) || v == null || fresh(v)
    {
      var ix := num;
      ghost var was := Contents();
      ok := SetSize(ix + 1, memory);
      if !ok {
        return;
      }
      v[ix] := x;
      assert Contents()[..ix] == was;
    }

    /** Moves the elements behind `index` one place down. */
    method Remove(index: nat)
      requires Valid() && index < num
      modifies this, v
      ensures Valid() && max == old(max) && v == old(v)
      ensures Contents() == old(Contents())[..index] + old(Contents())[index + 1..]
    {
      var i := index;
      while i + 1 < num
        invariant index <= i < num
        invariant forall j: nat | j < num :: v[j] == if index <= j < i then old(v[j + 1]) else old(v[j])
        modifies v
      {
        v[i] := v[i + 1];
        i := i + 1;
      }
      num := num - 1;
    }
  }
}
