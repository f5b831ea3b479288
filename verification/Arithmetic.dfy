/** Facts about products and remainders. */
module Arithmetic {
  lemma ProductOrder(x: nat, y: nat, z: nat)
    requires x < y
    ensures x * z + z <= y * z
  {
    assert y * z == x * z + (y - x) * z;
    assert (y - x) * z == z + (y - x - 1) * z;
  }

  lemma QuotientOrder(x: nat, y: nat, z: nat)
    requires x * z < y * z
    ensures x < y
  {
    if y < x {
      ProductOrder(y, x, z);
    }
  }

  lemma Multiple(a: nat, z: nat) returns (q: nat)
    requires z > 0 && a % z == 0
    ensures a == q * z
  {
    q := a / z;
  }

  /** Two multiples of `z` are at least `z` apart. */
  lemma MultiplesApart(a: nat, b: nat, z: nat)
    requires z > 0 && a % z == 0 && b % z == 0 && a < b
    ensures a + z <= b
  {
    var p := Multiple(a, z);
    var q := Multiple(b, z);
    QuotientOrder(p, q, z);
    ProductOrder(p, q, z);
  }

  lemma {:induction false} MultipleIs(n: nat, z: nat)
    requires z > 0
    ensures (n * z) % z == 0
  {
    if n > 0 {
      MultipleIs(n - 1, z);
      assert n * z == (n - 1) * z + z;
      AddModulus((n - 1) * z, z);
    }
  }

  lemma AddModulus(x: nat, z: nat)
    requires z > 0
    ensures (x + z) % z == x % z
  {
    var q := x / z;
    assert x == q * z + x % z;
    assert (q + 1) * z == q * z + z;
    Remainder(x + z, q + 1, x % z, z);
  }

  lemma Remainder(x: nat, q: nat, r: nat, z: nat)
    requires z > 0 && x == q * z + r && r < z
    ensures x % z == r
  {
    var p := x / z;
    assert x == p * z + x % z;
    if p < q {
      ProductOrder(p, q, z);
    } else if q < p {
      ProductOrder(q, p, z);
    }
  }

  /** Going around: `r + 1`, from 0 again at `n`. */
  function Around(i: nat, n: nat): nat
    requires i < 2 * n
  {
    if i < n then i else i - n
  }

  lemma AroundIs(i: nat, n: nat)
    requires i < 2 * n
    ensures i % n == Around(i, n)
  {
    if i < n {
      Remainder(i, 0, i, n);
    } else {
      Remainder(i, 1, i - n, n);
    }
  }

  /** A name for the remainder, for proofs that must not look inside. */
  function Mod(x: nat, n: nat): nat
    requires n > 0
  {
    x % n
  }

  function Div(x: nat, n: nat): nat
    requires n > 0
  {
    x / n
  }

  lemma NextByte(b: bv8)
    requires b != 255
    ensures (b + 1) as int == b as int + 1
  {
  }

  lemma {:induction false} ByteOfInt(x: nat) returns (b: bv8)
    requires x < 256
    ensures b as int == x
  {
    if x == 0 {
      b := 0;
    } else {
      var c := ByteOfInt(x - 1);
      assert c != 255;
      NextByte(c);
      b := c + 1;
    }
  }

  lemma BackAndThere(b: bv8)
    ensures (b as int) as bv8 == b
  {
  }

  lemma ByteThereAndBack(x: int)
    requires 0 <= x < 256
    ensures (x as bv8) as int == x
  {
    var b := ByteOfInt(x);
    BackAndThere(b);
  }
}
