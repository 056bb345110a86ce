/** Machine integers: arithmetic that wraps around. */
module MachineInts {
  const TWO_31 := 0x8000_0000
  const TWO_32 := 0x1_0000_0000
  const TWO_63 := 0x8000_0000_0000_0000
  const TWO_64 := 0x1_0000_0000_0000_0000

  /** Two's complement wrap-around of 64-bit arithmetic. */
  function Wrap64(x: int): (r: int)
    ensures -TWO_63 <= r < TWO_63
    ensures -TWO_63 <= x < TWO_63 ==> r == x
  {
    (x + TWO_63) % TWO_64 - TWO_63
  }

  /** Truncation to 32 bits. */
  function Wrap32(x: int): (r: int)
    ensures -TWO_31 <= r < TWO_31
    ensures -TWO_31 <= x < TWO_31 ==> r == x
  {
    (x + TWO_31) % TWO_32 - TWO_31
  }

  lemma WrapAdd(a: int, b: int)
    ensures Wrap64(Wrap64(a) + b) == Wrap64(a + b)
  {
    var q := (a + TWO_63) / TWO_64;
    assert Wrap64(a) == a - q * TWO_64;
    var x, m := a + b + TWO_63, TWO_64;
    ModShift(x, q);
  }

  lemma ModShift(x: int, q: int)
    ensures (x - q * TWO_64) % TWO_64 == x % TWO_64
  {
    var k, r := x / TWO_64, x % TWO_64;
    assert x - q * TWO_64 == (k - q) * TWO_64 + r;
    DivUnique(x - q * TWO_64, k - q, r);
  }

  lemma DivUnique(x: int, k: int, r: int)
    requires x == k * TWO_64 + r && 0 <= r < TWO_64
    ensures x % TWO_64 == r
  {
    var k', r' := x / TWO_64, x % TWO_64;
    assert x == k' * TWO_64 + r';
    assert (k - k') * TWO_64 == r' - r;
  }
}
