/** Facts about integer division by powers of two used by the address arithmetic. */
module Arith {

  /** 2^n. */
  function Pow2(n: nat): (r: nat)
    ensures r >= 1
  {
    if n == 0 then 1 else 2 * Pow2(n - 1)
  }

  lemma {:induction false} Pow2Add(a: nat, b: nat)
    ensures Pow2(a + b) == Pow2(a) * Pow2(b)
  {
    if a > 0 {
      Pow2Add(a - 1, b);
      assert Pow2(a + b) == 2 * Pow2(a - 1 + b);
    }
  }

  lemma {:induction false} Pow2Monotone(a: nat, b: nat)
    requires a <= b
    ensures Pow2(a) <= Pow2(b)
  {
    if a < b {
      Pow2Monotone(a, b - 1);
    }
  }

  lemma Pow2Values()
    ensures Pow2(30) == 0x4000_0000
    ensures Pow2(31) == 0x8000_0000
    ensures Pow2(32) == 0x1_0000_0000
  {
    assert Pow2(2) == 4;
    Pow2Add(2, 2);
    Pow2Add(4, 4);
    Pow2Add(8, 8);
    Pow2Add(16, 16);
    Pow2Add(16, 8);
    Pow2Add(24, 4);
    Pow2Add(28, 2);
    Pow2Add(30, 1);
  }

  /** The powers of two up to 2^32. */
  lemma Pow2Table()
    ensures Pow2(0) == 1
    ensures Pow2(1) == 2
    ensures Pow2(2) == 4
    ensures Pow2(3) == 8
    ensures Pow2(4) == 16
    ensures Pow2(5) == 32
    ensures Pow2(6) == 64
    ensures Pow2(7) == 128
    ensures Pow2(8) == 256
    ensures Pow2(9) == 512
    ensures Pow2(10) == 1024
    ensures Pow2(11) == 2048
    ensures Pow2(12) == 4096
    ensures Pow2(13) == 8192
    ensures Pow2(14) == 16384
    ensures Pow2(15) == 32768
    ensures Pow2(16) == 65536
    ensures Pow2(17) == 131072
    ensures Pow2(18) == 262144
    ensures Pow2(19) == 524288
    ensures Pow2(20) == 1048576
    ensures Pow2(21) == 2097152
    ensures Pow2(22) == 4194304
    ensures Pow2(23) == 8388608
    ensures Pow2(24) == 16777216
    ensures Pow2(25) == 33554432
    ensures Pow2(26) == 67108864
    ensures Pow2(27) == 134217728
    ensures Pow2(28) == 268435456
    ensures Pow2(29) == 536870912
    ensures Pow2(30) == 1073741824
    ensures Pow2(31) == 2147483648
    ensures Pow2(32) == 4294967296
  {
    assert Pow2(1) == 2 * Pow2(0);
    assert Pow2(2) == 2 * Pow2(1);
    assert Pow2(3) == 2 * Pow2(2);
    assert Pow2(4) == 2 * Pow2(3);
    assert Pow2(5) == 2 * Pow2(4);
    assert Pow2(6) == 2 * Pow2(5);
    assert Pow2(7) == 2 * Pow2(6);
    assert Pow2(8) == 2 * Pow2(7);
    assert Pow2(9) == 2 * Pow2(8);
    assert Pow2(10) == 2 * Pow2(9);
    assert Pow2(11) == 2 * Pow2(10);
    assert Pow2(12) == 2 * Pow2(11);
    assert Pow2(13) == 2 * Pow2(12);
    assert Pow2(14) == 2 * Pow2(13);
    assert Pow2(15) == 2 * Pow2(14);
    assert Pow2(16) == 2 * Pow2(15);
    assert Pow2(17) == 2 * Pow2(16);
    assert Pow2(18) == 2 * Pow2(17);
    assert Pow2(19) == 2 * Pow2(18);
    assert Pow2(20) == 2 * Pow2(19);
    assert Pow2(21) == 2 * Pow2(20);
    assert Pow2(22) == 2 * Pow2(21);
    assert Pow2(23) == 2 * Pow2(22);
    assert Pow2(24) == 2 * Pow2(23);
    assert Pow2(25) == 2 * Pow2(24);
    assert Pow2(26) == 2 * Pow2(25);
    assert Pow2(27) == 2 * Pow2(26);
    assert Pow2(28) == 2 * Pow2(27);
    assert Pow2(29) == 2 * Pow2(28);
    assert Pow2(30) == 2 * Pow2(29);
    assert Pow2(31) == 2 * Pow2(30);
    assert Pow2(32) == 2 * Pow2(31);
  }

  /** A multiple of p leaves no remainder when divided by p. */
  lemma ModOfMultiple(k: int, p: int)
    requires p > 0
    ensures (k * p) % p == 0
  {
    var q, r := (k * p) / p, (k * p) % p;
    assert k * p == q * p + r;
    assert (k - q) * p == r;
    if k - q >= 1 {
      MulAtLeast(k - q, p);
    } else if k - q <= -1 {
      MulAtLeast(q - k, p);
    }
  }

  /** A product is a multiple of its left factor. */
  lemma ModOfProduct(x: int, p: int, q: int)
    requires p > 0 && x == p * q
    ensures x % p == 0
  {
    assert x == q * p;
    ModOfMultiple(q, p);
  }

  /** The next multiple of p after a multiple of p. */
  lemma NextMultiple(x: int, p: int)
    requires p > 0 && x % p == 0
    ensures (x + p) % p == 0
  {
    var q := x / p;
    assert x == q * p;
    assert x + p == (q + 1) * p;
    ModOfMultiple(q + 1, p);
  }

  lemma MulAtLeast(m: int, p: int)
    requires m >= 1 && p > 0
    ensures m * p >= p
  {
  }

  lemma MulNonPositive(m: int, p: int)
    requires m <= 0 && p > 0
    ensures m * p <= 0
  {
  }

  /** Two distinct multiples of p are at least p apart. */
  lemma MultipleGap(x: int, y: int, p: int)
    requires p > 0 && x % p == 0 && y % p == 0 && x < y
    ensures x + p <= y
  {
    var a, b := x / p, y / p;
    assert x == a * p;
    assert y == b * p;
    assert y - x == (b - a) * p;
    if b - a <= 0 {
      MulNonPositive(b - a, p);
    }
    MulAtLeast(b - a, p);
  }

  /** A multiple of p * q is a multiple of p. */
  lemma MultipleOfFactor(x: int, p: int, q: int)
    requires p > 0 && q > 0 && x % (p * q) == 0
    ensures x % p == 0
  {
    var k := x / (p * q);
    assert x == k * (p * q);
    assert x == (k * q) * p;
    ModOfMultiple(k * q, p);
  }

  /** Rounding down to a multiple of p yields a multiple of p. */
  lemma RoundDownIsMultiple(x: int, p: int)
    requires p > 0
    ensures (x - x % p) % p == 0
  {
    assert x - x % p == (x / p) * p;
    ModOfMultiple(x / p, p);
  }
}
