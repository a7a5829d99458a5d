/**
 * 32-bit address arithmetic: the JavaScript integer operators the source uses
 * (`1 << n`, `^`, ToInt32) written out exactly, and the unsigned prefix
 * arithmetic they approximate.
 */
module PrefixMath {
  import opened Arith

  const TWO31: int := 0x8000_0000
  const TWO32: int := 0x1_0000_0000

  /** A parsed `"ip/cidr"` table key. */
  datatype Key = Key(ip: int, cidr: int)

  /** ECMAScript ToInt32: wrap modulo 2^32 into the signed range. */
  function ToInt32(x: int): (r: int)
    ensures -TWO31 <= r < TWO31
    ensures (x - r) % TWO32 == 0
    ensures 0 <= x < TWO31 ==> r == x
  {
    var u := x % TWO32;
    RoundDownIsMultiple(x, TWO32);
    if u >= TWO31 then
      assert x - (u - TWO32) == (x / TWO32 + 1) * TWO32;
      ModOfMultiple(x / TWO32 + 1, TWO32);
      u - TWO32
    else
      u
  }

  /** JavaScript `1 << n`: the count is taken modulo 32 and the result is a signed 32-bit integer. */
  function Shl1(n: int): (r: int)
    ensures n % 32 < 31 ==> r == Pow2(n % 32)
    ensures n % 32 == 31 ==> r == -TWO31
  {
    var s := n % 32;
    Pow2Values();
    assert s < 31 ==> Pow2(s) <= Pow2(30) by {
      if s < 31 { Pow2Monotone(s, 30); }
    }
    ToInt32(Pow2(s))
  }

  /**
   * `1 << (32 - cidr)`, the block size as the source computes it. It is the
   * true size only for cidr 2..32: /1 gives -2^31 and /0 gives 1.
   */
  function JsBlockSize(cidr: int): (r: int)
    ensures 2 <= cidr <= 32 ==> r == Pow2(32 - cidr)
    ensures cidr == 1 ==> r == -TWO31
    ensures cidr == 0 ==> r == 1
  {
    Shl1(32 - cidr)
  }

  /** The number of addresses in a /cidr block. */
  function BlockSize(cidr: int): (r: nat)
    requires 0 <= cidr <= 32
    ensures r >= 1
  {
    Pow2(32 - cidr)
  }

  /** `prefix(a, c)`: `a` with its low 32 - c bits cleared. */
  function Prefix(a: int, c: int): (r: int)
    requires 0 <= c <= 32
    ensures r <= a < r + BlockSize(c)
    ensures r % BlockSize(c) == 0
    ensures a % BlockSize(c) == 0 ==> r == a
  {
    RoundDownIsMultiple(a, BlockSize(c));
    a - a % BlockSize(c)
  }

  /** `ip` is the first address of a /c block. */
  predicate Aligned(ip: int, c: int)
    requires 0 <= c <= 32
  {
    ip % BlockSize(c) == 0
  }

  /** An aligned block inside the 32-bit address space. */
  predicate ValidKey(k: Key) {
    && 0 <= k.cidr <= 32
    && 0 <= k.ip
    && Aligned(k.ip, k.cidr)
    && k.ip + BlockSize(k.cidr) <= TWO32
  }

  /**
   * JavaScript `x ^ (1 << n)`: bit `n % 32` of x's 32-bit two's-complement
   * pattern flipped, read back as a signed 32-bit integer.
   */
  function JsFlipBit(x: int, n: int): (r: int)
    ensures -TWO31 <= r < TWO31
  {
    var p := Pow2(n % 32);
    var u := x % TWO32;
    ToInt32(if (u / p) % 2 == 0 then u + p else u - p)
  }

  /**
   * For x in the unsigned 32-bit range and n in 0..31, the bit pattern of
   * `x ^ (1 << n)` keeps every bit of x except bit n, which it flips; the
   * value is negative exactly when that pattern has its top bit set.
   */
  lemma JsFlipBitFlips(x: int, n: nat)
    requires 0 <= x < TWO32 && n < 32
    ensures var p, v := Pow2(n), JsFlipBit(x, n) % TWO32;
      && v % p == x % p
      && (v / p) % 2 != (x / p) % 2
      && v / (2 * p) == x / (2 * p)
      && (JsFlipBit(x, n) < 0 <==> v >= TWO31)
  {
    var p := Pow2(n);
    var h, b, lo := x / p / 2, (x / p) % 2, x % p;
    BitDigits(x, p);
    SpaceHolds(n);
    MultipleBelow(x, TWO32, 2 * p);
    var w := if b == 0 then x + p else x - p;
    FlipDigits(w, h, if b == 0 then p else 0, lo, p);
    FlipDigits(x, h, if b == 0 then 0 else p, lo, p);
    ToInt32Pattern(w);
    FlipIs(x, n, w);
  }

  /** 2^(n+1) divides 2^32. */
  lemma SpaceHolds(n: nat)
    requires n < 32
    ensures TWO32 % (2 * Pow2(n)) == 0
  {
    Pow2Values();
    Pow2Add(n + 1, 31 - n);
    ModOfProduct(TWO32, 2 * Pow2(n), Pow2(31 - n));
  }

  /** On an unsigned x, `x ^ (1 << n)` is ToInt32 of x with bit n set or cleared. */
  lemma FlipIs(x: int, n: nat, w: int)
    requires 0 <= x < TWO32 && n < 32
    requires w == if (x / Pow2(n)) % 2 == 0 then x + Pow2(n) else x - Pow2(n)
    ensures JsFlipBit(x, n) == ToInt32(w)
  {
    ModUnique(x, 0, x, TWO32);
    assert n % 32 == n;
  }

  /** x written in base p with its digit of weight p split off. */
  lemma BitDigits(x: int, p: int)
    requires x >= 0 && p > 0
    ensures x == (x / p / 2) * (2 * p) + (if (x / p) % 2 == 0 then 0 else p) + x % p
  {
    var q := x / p;
    assert x == q * p + x % p;
    assert q == 2 * (q / 2) + q % 2;
    assert q * p == (q / 2) * (2 * p) + (q % 2) * p;
  }

  /** The digits of w = h * 2p + d + lo, d being 0 or p, in base p and base 2p. */
  lemma FlipDigits(w: int, h: int, d: int, lo: int, p: int)
    requires p > 0 && (d == 0 || d == p) && 0 <= lo < p && w == h * (2 * p) + d + lo
    ensures w % p == lo && (w / p) % 2 == (if d == 0 then 0 else 1) && w / (2 * p) == h
  {
    var e := if d == 0 then 0 else 1;
    assert d == e * p;
    assert w == (2 * h + e) * p + lo;
    ModUnique(w, 2 * h + e, lo, p);
    ModUnique(2 * h + e, h, e, 2);
    ModUnique(w, h, d + lo, 2 * p);
  }

  /** The 2p-block around x ends at or below any multiple of 2p above x. */
  lemma MultipleBelow(x: int, m: int, d: int)
    requires d > 0 && m % d == 0 && 0 <= x < m
    ensures 0 <= (x / d) * d <= x && (x / d) * d + d <= m
  {
    ModOfMultiple(x / d, d);
    MultipleGap((x / d) * d, m, d);
  }

  /** ToInt32 of an unsigned 32-bit value keeps its bit pattern; the top bit is the sign. */
  lemma ToInt32Pattern(w: int)
    requires 0 <= w < TWO32
    ensures ToInt32(w) % TWO32 == w && (ToInt32(w) < 0 <==> w >= TWO31)
  {
    var r := ToInt32(w);
    var k := (w - r) / TWO32;
    assert w - r == k * TWO32;
    if w < TWO31 {
      ModUnique(r, 0, w, TWO32);
    } else {
      assert k == 1;
      ModUnique(r, -1, w, TWO32);
    }
  }

  /** If x = q * p + r with 0 <= r < p then r is x % p. */
  lemma ModUnique(x: int, q: int, r: int, p: int)
    requires p > 0 && x == q * p + r && 0 <= r < p
    ensures x % p == r && x / p == q
  {
    var q', r' := x / p, x % p;
    assert (q - q') * p == r' - r;
    if q - q' >= 1 {
      MulAtLeast(q - q', p);
    } else if q' - q >= 1 {
      MulAtLeast(q' - q, p);
    }
  }

  /** The block size of a shorter prefix is a multiple of that of a longer one. */
  lemma BlockSizeFactor(c1: int, c2: int)
    requires 0 <= c1 <= c2 <= 32
    ensures BlockSize(c1) == BlockSize(c2) * Pow2(c2 - c1)
    ensures BlockSize(c2) <= BlockSize(c1)
  {
    Pow2Add(32 - c2, c2 - c1);
    Pow2Monotone(32 - c2, 32 - c1);
  }

  /** An address aligned to a short prefix is aligned to every longer one. */
  lemma AlignedLonger(ip: int, c1: int, c2: int)
    requires 0 <= c1 <= c2 <= 32 && Aligned(ip, c1)
    ensures Aligned(ip, c2)
  {
    BlockSizeFactor(c1, c2);
    MultipleOfFactor(ip, BlockSize(c2), Pow2(c2 - c1));
  }

  /** The aligned block of size p around x is unique. */
  lemma RoundDownUnique(x: int, m: int, p: int)
    requires p > 0 && m % p == 0 && m <= x < m + p
    ensures x - x % p == m
  {
    ModUnique(m, m / p, 0, p);
    ModUnique(x, m / p, x - m, p);
  }

  /** Prefixing is monotone in the prefix length: prefix(prefix(a, c1), c2) == prefix(a, c2). */
  lemma {:induction false} PrefixOfPrefix(a: int, c1: int, c2: int)
    requires 0 <= c2 <= c1 <= 32
    ensures Prefix(Prefix(a, c1), c2) == Prefix(a, c2)
  {
    var r1, r2 := Prefix(a, c1), Prefix(a, c2);
    AlignedLonger(r2, c2, c1);
    if r2 > r1 {
      MultipleGap(r1, r2, BlockSize(c1));
    }
    RoundDownUnique(r1, r2, BlockSize(c2));
  }

  /** TWO32 is a multiple of every block size. */
  lemma SpaceIsMultiple(c: int)
    requires 0 <= c <= 32
    ensures TWO32 % BlockSize(c) == 0
  {
    assert BlockSize(0) == TWO32 by { Pow2Values(); }
    BlockSizeFactor(0, c);
    ModOfProduct(TWO32, BlockSize(c), Pow2(c));
  }

  /** A multiple of p above -p is not negative. */
  lemma MultipleNonNegative(r: int, p: int)
    requires p > 0 && r % p == 0 && r > -p
    ensures r >= 0
  {
    if r < 0 {
      ModOfMultiple(0, p);
      MultipleGap(r, 0, p);
    }
  }

  /** The prefix of a valid block at a shorter length is a valid block. */
  lemma PrefixValid(k: Key, c: int)
    requires ValidKey(k) && 0 <= c <= k.cidr
    ensures ValidKey(Key(Prefix(k.ip, c), c))
  {
    var r, p := Prefix(k.ip, c), BlockSize(c);
    MultipleNonNegative(r, p);
    BlockSizeFactor(c, k.cidr);
    SpaceIsMultiple(c);
    if r + p > TWO32 {
      MultipleGap(r, TWO32, p);
    }
  }

  /** The end of an aligned block is aligned at every longer prefix. */
  lemma EndAligned(a: Key, c: int)
    requires ValidKey(a) && a.cidr <= c <= 32
    ensures Aligned(a.ip + BlockSize(a.cidr), c)
  {
    NextMultiple(a.ip, BlockSize(a.cidr));
    AlignedLonger(a.ip + BlockSize(a.cidr), a.cidr, c);
  }

  /** Two aligned blocks are either nested or disjoint. */
  lemma NestedOrDisjoint(a: Key, b: Key)
    requires ValidKey(a) && ValidKey(b) && a.cidr <= b.cidr
    ensures || (a.ip <= b.ip && b.ip + BlockSize(b.cidr) <= a.ip + BlockSize(a.cidr))
            || b.ip + BlockSize(b.cidr) <= a.ip
            || a.ip + BlockSize(a.cidr) <= b.ip
  {
    var sa, sb := BlockSize(a.cidr), BlockSize(b.cidr);
    AlignedLonger(a.ip, a.cidr, b.cidr);
    EndAligned(a, b.cidr);
    if b.ip < a.ip {
      MultipleGap(b.ip, a.ip, sb);
    } else if b.ip < a.ip + sa {
      MultipleGap(b.ip, a.ip + sa, sb);
    }
  }
}
