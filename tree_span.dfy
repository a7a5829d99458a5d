/**
 * Block arithmetic on nodes and the covering / filling operations of
 * src/tree.js: `beforeNode`, `afterNode`, `span` and `createSpan`.
 */
module TreeSpan {
  import opened Wrappers
  import opened Arith
  import opened PrefixMath
  import opened TreeNodes

  /**
   * `beforeNode` (src/tree.js:244-247): the single address before a block,
   * with its value and no key. It ends where the block starts, so it
   * precedes the block.
   */
  function BeforeNode(n: Node): (r: Node)
    ensures r.cidr == 32 && End(r.Block()) == n.ip && Precedes(r.Block(), n.Block())
    ensures r.key == None && r.value == n.value && r.children == []
  {
    Node(n.ip - 1, 32, None, n.value, [])
  }

  /**
   * `afterNode` (src/tree.js:250-253): the single address after a block. For
   * /1 and /0 the signed shift puts it 2^31 before, or one after, the start.
   */
  function AfterNode(n: Node): (r: Node)
    ensures r.cidr == 32 && r.key == None && r.value == n.value && r.children == []
    ensures 2 <= n.cidr <= 32 ==> r.ip == End(n.Block())
    ensures n.cidr == 1 ==> r.ip == n.ip - TWO31
    ensures n.cidr == 0 ==> r.ip == n.ip + 1
  {
    Node(n.ip + JsBlockSize(n.cidr), 32, None, n.value, [])
  }

  /** The neighbours of a tree block are adjacent to it and outside it. */
  lemma Neighbours(n: Node)
    requires TreeBlock(n.Block())
    ensures End(BeforeNode(n).Block()) == n.ip && Precedes(BeforeNode(n).Block(), n.Block())
    ensures AfterNode(n).ip == End(n.Block()) && Precedes(n.Block(), AfterNode(n).Block())
    ensures !Contains(n.Block(), BeforeNode(n).Block()) && !Contains(n.Block(), AfterNode(n).Block())
  {
    Pow2Table();
  }

  /** spec/tree.spec.js:39-51: around 10.2.0.0/16 lie 10.1.255.255 and 10.3.0.0. */
  lemma NeighboursExample()
    ensures var n := Node(0x0A02_0000, 16, Some(Key(0x0A02_0000, 16)), Some("2"), []);
      BeforeNode(n).Block() == Key(0x0A01_FFFF, 32) && AfterNode(n).Block() == Key(0x0A03_0000, 32)
  {
    Pow2Table();
  }

  function Min(x: int, y: int): int {
    if x <= y then x else y
  }

  /** Block k contains both a and b, as `contains` decides it. */
  predicate Covers(k: Key, a: Key, b: Key) {
    Contains(k, a) && Contains(k, b)
  }

  /**
   * What `span(a, b)` returns (src/tree.js:182-195): the walk starts at a's
   * prefix length at the lower address and shortens the prefix one bit at a
   * time; the result is the first block shorter than a that contains both,
   * or, when none does, the /0 block, which is not checked.
   */
  ghost predicate IsSpan(a: Key, b: Key, r: Key)
    requires a.cidr <= 32
  {
    var lo := Min(a.ip, b.ip);
    && (a.cidr <= 0 ==> r == Key(lo, a.cidr))
    && (a.cidr > 0 ==> 0 <= r.cidr < a.cidr && r.ip == Prefix(lo, r.cidr))
    && (a.cidr > 0 && r.cidr > 0 ==> Covers(r, a, b))
    && (forall c :: r.cidr < c < a.cidr ==> !Covers(Key(Prefix(lo, c), c), a, b))
  }

  /** The loop of `span` (src/tree.js:183-193) on blocks. */
  method SpanBlock(a: Key, b: Key) returns (r: Key)
    requires a.cidr <= 32
    ensures IsSpan(a, b, r)
  {
    var ip, cidr := Min(a.ip, b.ip), a.cidr;
    while cidr > 0
      invariant Spanning(a, b, ip, cidr)
      decreases cidr
    {
      if Contains(Key(ip, cidr), a) && Contains(Key(ip, cidr), b) {
        SpanHit(a, b, ip, cidr);
        return Key(ip, cidr);
      }
      SpanMiss(a, b, ip, cidr);
      cidr := cidr - 1;
      ip := Prefix(ip, cidr);
    }
    SpanEnd(a, b, ip, cidr);
    return Key(ip, cidr);
  }

  /**
   * The state of that loop at prefix length cidr: ip is the lower address cut
   * to cidr bits, and no longer block tried so far covers both inputs.
   */
  ghost predicate Spanning(a: Key, b: Key, ip: int, cidr: int)
    requires a.cidr <= 32
  {
    var lo := Min(a.ip, b.ip);
    && cidr <= a.cidr
    && (cidr == a.cidr ==> ip == lo)
    && (cidr < a.cidr ==> 0 <= cidr && ip == Prefix(lo, cidr))
    && (forall c :: cidr < c < a.cidr ==> !Covers(Key(Prefix(lo, c), c), a, b))
  }

  /** A block of the walk that covers both inputs is their span. */
  lemma SpanHit(a: Key, b: Key, ip: int, cidr: int)
    requires a.cidr <= 32 && Spanning(a, b, ip, cidr) && 0 < cidr
    requires Contains(Key(ip, cidr), a) && Contains(Key(ip, cidr), b)
    ensures IsSpan(a, b, Key(ip, cidr))
  {
  }

  /** A block that misses one input moves the walk one bit shorter. */
  lemma SpanMiss(a: Key, b: Key, ip: int, cidr: int)
    requires a.cidr <= 32 && Spanning(a, b, ip, cidr) && 0 < cidr
    requires !(Contains(Key(ip, cidr), a) && Contains(Key(ip, cidr), b))
    ensures Spanning(a, b, Prefix(ip, cidr - 1), cidr - 1)
  {
    var lo := Min(a.ip, b.ip);
    if cidr < a.cidr {
      PrefixOfPrefix(lo, cidr, cidr - 1);
    }
  }

  /** A walk that reaches /0 ends there. */
  lemma SpanEnd(a: Key, b: Key, ip: int, cidr: int)
    requires a.cidr <= 32 && Spanning(a, b, ip, cidr) && cidr <= 0
    ensures IsSpan(a, b, Key(ip, cidr))
  {
  }

  /** `span` (src/tree.js:182-195): the covering block as a keyed node with a's value. */
  method Span(a: Node, b: Node) returns (r: Node)
    requires a.cidr <= 32
    ensures IsSpan(a.Block(), b.Block(), r.Block())
    ensures r.key == Some(r.Block()) && r.value == a.value && r.children == []
  {
    var k := SpanBlock(a.Block(), b.Block());
    r := Node(k.ip, k.cidr, Some(k), a.value, []);
  }

  /**
   * No aligned block strictly between the span and a's prefix length contains
   * both inputs: the span is the most specific covering block below a.cidr,
   * unless it is the unchecked /0.
   */
  lemma SpanMostSpecific(a: Key, b: Key, r: Key, k: Key)
    requires a.cidr <= 32 && IsSpan(a, b, r)
    requires ValidKey(k) && r.cidr < k.cidr < a.cidr
    ensures !Covers(k, a, b)
  {
    var lo := Min(a.ip, b.ip);
    if k.cidr >= 2 && k.ip <= lo < k.ip + BlockSize(k.cidr) {
      RoundDownUnique(lo, k.ip, BlockSize(k.cidr));
      assert Key(Prefix(lo, k.cidr), k.cidr) == k;
    }
  }

  /** `span` is a function of its inputs: at most one block meets the description. */
  lemma SpanUnique(a: Key, b: Key, r1: Key, r2: Key)
    requires a.cidr <= 32 && IsSpan(a, b, r1) && IsSpan(a, b, r2)
    ensures r1 == r2
  {
  }

  /** When both inputs are tree blocks and the walk stops above /0, the span is a valid block. */
  lemma SpanValid(a: Key, b: Key, r: Key)
    requires TreeBlock(a) && TreeBlock(b) && IsSpan(a, b, r) && r.cidr > 0
    ensures TreeBlock(r) && Inside(r, a) && Inside(r, b)
  {
    var lo := Min(a.ip, b.ip);
    assert r.cidr >= 2;
    PrefixValid(if a.ip <= b.ip then a else b, r.cidr);
    NestedOrDisjoint(r, a);
    NestedOrDisjoint(r, b);
  }

  /** spec/tree.spec.js:53-62: the span of 10.1.255.255 with 10.2.0.0/16 is prefix(10.1.255.255, 14)/14. */
  lemma SpanBeforeExample(r: Key)
    requires IsSpan(Key(0x0A01_FFFF, 32), Key(0x0A02_0000, 16), r)
    ensures r == Key(Prefix(0x0A01_FFFF, 14), 14) && r == Key(0x0A00_0000, 14)
  {
    Pow2Table();
    var a, b := Key(0x0A01_FFFF, 32), Key(0x0A02_0000, 16);
    assert Prefix(0x0A01_FFFF, 14) == 0x0A00_0000;
    assert Covers(Key(0x0A00_0000, 14), a, b);
    assert r.cidr >= 14;
  }

  /** spec/tree.spec.js:64-67: the span of 10.3.0.0 with 10.2.0.0/16 is prefix(10.2.0.1, 15)/15. */
  lemma SpanAfterExample(r: Key)
    requires IsSpan(Key(0x0A03_0000, 32), Key(0x0A02_0000, 16), r)
    ensures r == Key(Prefix(0x0A02_0001, 15), 15) && r == Key(0x0A02_0000, 15)
  {
    Pow2Table();
    var a, b := Key(0x0A03_0000, 32), Key(0x0A02_0000, 16);
    assert Prefix(0x0A02_0000, 15) == 0x0A02_0000;
    assert Prefix(0x0A02_0001, 15) == 0x0A02_0000;
    assert Covers(Key(0x0A02_0000, 15), a, b);
    assert r.cidr >= 15;
  }

  /** An address aligned to s is aligned to 2s or lies half-way through a 2s block. */
  lemma HalfRemainder(x: int, s: int)
    requires s > 0 && x % s == 0
    ensures x % (2 * s) == 0 || x % (2 * s) == s
  {
    var q := x / s;
    assert x == q * s;
    var h := q / 2;
    if q % 2 == 0 {
      assert q == 2 * h;
      assert x == h * (2 * s);
      ModUnique(x, h, 0, 2 * s);
    } else {
      assert q == 2 * h + 1;
      assert x == (2 * h) * s + s;
      assert x == h * (2 * s) + s;
      ModUnique(x, h, s, 2 * s);
    }
  }

  /** Blocks of prefix length up to 2 are at least 2^30 addresses. */
  lemma WideBlocks(c: int)
    requires 0 <= c <= 32
    ensures c <= 2 ==> BlockSize(c) >= Pow2(30)
  {
    if c <= 2 {
      var n := 32 - c;
      Pow2Monotone(30, n);
    }
  }

  /**
   * Growing a block that starts where `at` ends: either the next shorter
   * prefix of the start is the start itself, or that block contains `at`.
   */
  lemma GrowStep(at: Key, ip: int, c: int)
    requires 2 <= at.cidr <= 32 && Aligned(at.ip, at.cidr) && ip == End(at)
    requires 3 <= c <= 32 && Aligned(ip, c)
    ensures Prefix(ip, c - 1) == ip || Contains(Key(Prefix(ip, c - 1), c - 1), at)
  {
    var s, big := BlockSize(c), BlockSize(c - 1);
    assert big == 2 * s;
    if at.cidr <= c - 1 {
      NextMultiple(at.ip, BlockSize(at.cidr));
      AlignedLonger(ip, at.cidr, c - 1);
    } else if ip % big != 0 {
      HalfRemainder(ip, s);
      BlockSizeFactor(c, at.cidr);
      assert Prefix(ip, c - 1) == ip - s;
    }
  }

  /** A block of a fill: aligned, before `upto`, and not extensible to the next shorter prefix. */
  predicate FillBlock(n: Node, upto: int) {
    && 3 <= n.cidr <= 32 && Aligned(n.ip, n.cidr) && End(n.Block()) <= upto
    && !(Aligned(n.ip, n.cidr - 1) && n.ip + BlockSize(n.cidr - 1) <= upto)
  }

  /**
   * The blocks `createSpan` returns for the gap [start, upto): none when the gap
   * is empty, else contiguous blocks from start ending exactly at upto, each the
   * largest aligned block at its address that fits.
   */
  ghost predicate IsFill(start: int, upto: int, ns: seq<Node>) {
    && (start >= upto ==> ns == [])
    && (start < upto ==> ns != [] && ns[0].ip == start && End(ns[|ns| - 1].Block()) == upto)
    && (forall i :: 0 <= i < |ns| ==> FillBlock(ns[i], upto))
    && (forall i :: 0 <= i < |ns| - 1 ==> ns[i + 1].ip == End(ns[i].Block()))
  }

  /**
   * Where the walk of `createSpan` stays in exact block arithmetic: the block
   * it continues from is aligned with prefix length 2..32 (a child, or a
   * `beforeNode`), and the gap up to `upto` is shorter than a /2 block.
   */
  predicate FillFrom(at: Key, upto: int) {
    && 2 <= at.cidr <= 32 && Aligned(at.ip, at.cidr)
    && 0 <= End(at) && upto - End(at) < Pow2(30)
  }

  /**
   * One block of `createSpan` (src/tree.js:206-214): start with the address
   * after `at` and double it while the next shorter prefix neither contains
   * `at` nor runs past `upto`.
   */
  method GrowBlock(at: Node, upto: int, v: Option<Value>) returns (r: Result<Node>)
    requires AfterNode(at).ip < upto
    ensures r.Ok? ==> r.value.key == None && r.value.value == v && r.value.children == []
    ensures FillFrom(at.Block(), upto) ==> r.Ok? && r.value.ip == End(at.Block()) && FillBlock(r.value, upto)
  {
    ghost var hyp := FillFrom(at.Block(), upto);
    var ip, cidr := AfterNode(at).ip, 32;
    if hyp {
      GrowStart(at, upto);
    }
    var candidate := Prefix(ip, cidr - 1);
    while !Contains(Key(candidate, cidr - 1), at.Block()) && candidate + Shl1(32 + 1 - cidr) <= upto
      invariant 1 <= cidr <= 32 && candidate == Prefix(ip, cidr - 1)
      invariant hyp ==> Growing(at.Block(), ip, cidr, upto)
      decreases cidr
    {
      if cidr == 1 {
        // the next step would ask for prefix(candidate, -1)
        return Err(OutsideModel);
      }
      if hyp {
        GrowOk(at.Block(), ip, cidr, upto);
      }
      ip, cidr := candidate, cidr - 1;
      candidate := Prefix(ip, cidr - 1);
    }
    if hyp {
      GrowDone(at.Block(), ip, cidr, upto);
    }
    return Ok(Node(ip, cidr, None, v, []));
  }

  /** The loop state of the growing loop: an aligned block at the address after `at`, inside the gap. */
  predicate Growing(at: Key, ip: int, c: int, upto: int) {
    && FillFrom(at, upto) && ip == End(at)
    && 3 <= c <= 32 && Aligned(ip, c) && End(Key(ip, c)) <= upto
  }

  /** The walk starts with the single address after `at`. */
  lemma GrowStart(at: Node, upto: int)
    requires FillFrom(at.Block(), upto) && AfterNode(at).ip < upto
    ensures Growing(at.Block(), AfterNode(at).ip, 32, upto)
  {
    Pow2Values();
  }

  /** A step of the growing loop from a well-placed start keeps the block at the same address. */
  lemma GrowOk(at: Key, ip: int, c: int, upto: int)
    requires Growing(at, ip, c, upto)
    requires !Contains(Key(Prefix(ip, c - 1), c - 1), at) && Prefix(ip, c - 1) + Shl1(32 + 1 - c) <= upto
    ensures Prefix(ip, c - 1) == ip && Growing(at, ip, c - 1, upto)
  {
    ShlBlock(c);
    GrowStep(at, ip, c);
    WideBlocks(c - 1);
    Pow2Values();
  }

  /** The doubled size `1 << (32 + 1 - c)` the loop compares with is the /(c - 1) block size. */
  lemma ShlBlock(c: int)
    requires 3 <= c <= 32
    ensures Shl1(32 + 1 - c) == BlockSize(c - 1)
  {
    assert (32 + 1 - c) % 32 == 33 - c;
  }

  /** When the growing loop stops, the block cannot be doubled within the gap. */
  lemma GrowDone(at: Key, ip: int, c: int, upto: int)
    requires Growing(at, ip, c, upto)
    requires !(!Contains(Key(Prefix(ip, c - 1), c - 1), at) && Prefix(ip, c - 1) + Shl1(32 + 1 - c) <= upto)
    ensures !(Aligned(ip, c - 1) && ip + BlockSize(c - 1) <= upto)
  {
    ShlBlock(c);
    if Aligned(ip, c - 1) {
      assert Prefix(ip, c - 1) == ip;
      assert at.ip < ip;
      assert !Contains(Key(ip, c - 1), at);
    }
  }

  /** The loop state of `createSpan` after the blocks `ret`, continuing from `at`. */
  ghost predicate PartialFill(from: Node, upto: int, ret: seq<Node>, at: Node) {
    && FillFrom(at.Block(), upto) && End(from.Block()) <= End(at.Block())
    && (ret == [] ==> at == from)
    && (ret != [] ==> at == ret[|ret| - 1] && ret[0].ip == End(from.Block()))
    && (forall i :: 0 <= i < |ret| ==> FillBlock(ret[i], upto))
    && (forall i :: 0 <= i < |ret| - 1 ==> ret[i + 1].ip == End(ret[i].Block()))
  }

  lemma PartialStep(from: Node, upto: int, ret: seq<Node>, at: Node, item: Node)
    requires PartialFill(from, upto, ret, at)
    requires item.ip == End(at.Block()) && FillBlock(item, upto)
    ensures PartialFill(from, upto, ret + [item], item)
  {
    var ret' := ret + [item];
    assert forall i :: 0 <= i < |ret| ==> ret'[i] == ret[i];
  }

  lemma PartialDone(from: Node, upto: int, ret: seq<Node>, at: Node)
    requires PartialFill(from, upto, ret, at) && End(at.Block()) >= upto
    ensures IsFill(End(from.Block()), upto, ret)
  {
  }

  /**
   * `createSpan` (src/tree.js:199-219). Every block it returns is a keyless
   * leaf carrying `v`; from a well-placed start it returns the greedy fill of
   * the gap.
   */
  method CreateSpan(from: Node, upto: Node, v: Option<Value>) returns (r: Result<seq<Node>>)
    ensures r.Ok? ==> forall i :: 0 <= i < |r.value| ==>
      r.value[i].key == None && r.value[i].value == v && r.value[i].children == []
    ensures FillFrom(from.Block(), upto.ip) ==> r.Ok? && IsFill(End(from.Block()), upto.ip, r.value)
  {
    ghost var hyp := FillFrom(from.Block(), upto.ip);
    var ret: seq<Node> := [];
    var at := from;
    while AfterNode(at).ip < upto.ip
      invariant forall i :: 0 <= i < |ret| ==> ret[i].key == None && ret[i].value == v && ret[i].children == []
      invariant hyp ==> PartialFill(from, upto.ip, ret, at)
      decreases upto.ip - AfterNode(at).ip
    {
      var item :- GrowBlock(at, upto.ip, v);
      if AfterNode(item).ip <= AfterNode(at).ip {
        // reachable only through the signed /1 and /0 block sizes
        return Err(OutsideModel);
      }
      if hyp {
        PartialStep(from, upto.ip, ret, at, item);
      }
      ret := ret + [item];
      at := item;
    }
    if hyp {
      PartialDone(from, upto.ip, ret, at);
    }
    return Ok(ret);
  }

  /** A fill block at an address is the largest aligned block there that fits. */
  lemma GreedyUnique(n: Node, upto: int, c: int)
    requires FillBlock(n, upto) && 3 <= c <= 32 && Aligned(n.ip, c) && n.ip + BlockSize(c) <= upto
    requires !(Aligned(n.ip, c - 1) && n.ip + BlockSize(c - 1) <= upto)
    ensures n.cidr == c
  {
    if n.cidr < c {
      AlignedLonger(n.ip, n.cidr, c - 1);
      BlockSizeFactor(n.cidr, c - 1);
    } else if n.cidr > c {
      AlignedLonger(n.ip, c, n.cidr - 1);
      BlockSizeFactor(c, n.cidr - 1);
    }
  }

  /** The i-th block of a fill, when the largest aligned block at its address is known. */
  lemma FillAt(start: int, upto: int, ns: seq<Node>, i: nat, ip: int, c: int)
    requires IsFill(start, upto, ns) && i < |ns| && ns[i].ip == ip
    requires 3 <= c <= 32 && Aligned(ip, c) && ip + BlockSize(c) <= upto
    requires !(Aligned(ip, c - 1) && ip + BlockSize(c - 1) <= upto)
    ensures ns[i].Block() == Key(ip, c)
    ensures ip + BlockSize(c) < upto ==> i + 1 < |ns| && ns[i + 1].ip == ip + BlockSize(c)
    ensures ip + BlockSize(c) == upto ==> |ns| == i + 1
  {
    GreedyUnique(ns[i], upto, c);
    if i + 1 < |ns| {
      assert ns[i + 1].ip == End(ns[i].Block());
      assert FillBlock(ns[i + 1], upto);
    }
  }

  /** spec/tree.spec.js:70-82: between 10.2.0.0/16 and 10.4.0.0/16 lies the single block 10.3.0.0/16. */
  lemma CreateSpanSimple(ns: seq<Node>)
    requires IsFill(End(Key(0x0A02_0000, 16)), 0x0A04_0000, ns)
    ensures FillFrom(Key(0x0A02_0000, 16), 0x0A04_0000)
    ensures |ns| == 1 && ns[0].Block() == Key(0x0A03_0000, 16)
  {
    Pow2Table();
    FillAt(0x0A03_0000, 0x0A04_0000, ns, 0, 0x0A03_0000, 16);
  }

  /**
   * spec/tree.spec.js:84-94: between 10.2.0.0/17 and 10.4.255.0/24 lie ten
   * blocks, of prefix lengths /17, /16, /17, /18, ..., /24.
   */
  lemma CreateSpanComplex(ns: seq<Node>)
    requires IsFill(End(Key(0x0A02_0000, 17)), 0x0A04_FF00, ns)
    ensures FillFrom(Key(0x0A02_0000, 17), 0x0A04_FF00)
    ensures |ns| == 10
    ensures ns[0].cidr == 17 && ns[1].cidr == 16 && ns[2].cidr == 17 && ns[3].cidr == 18 && ns[4].cidr == 19
    ensures ns[5].cidr == 20 && ns[6].cidr == 21 && ns[7].cidr == 22 && ns[8].cidr == 23 && ns[9].cidr == 24
  {
    assert End(Key(0x0A02_0000, 17)) == 0x0A02_8000 && Pow2(30) == 0x4000_0000 by { Pow2Table(); }
    ComplexHead(ns);
    ComplexMiddle(ns);
    ComplexTail(ns);
  }

  lemma ComplexHead(ns: seq<Node>)
    requires IsFill(0x0A02_8000, 0x0A04_FF00, ns)
    ensures 3 < |ns| && ns[3].ip == 0x0A04_8000
    ensures ns[0].cidr == 17 && ns[1].cidr == 16 && ns[2].cidr == 17
  {
    Pow2Table();
    var upto := 0x0A04_FF00;
    var start := 0x0A02_8000;
    FillAt(start, upto, ns, 0, 0x0A02_8000, 17);
    FillAt(start, upto, ns, 1, 0x0A03_0000, 16);
    FillAt(start, upto, ns, 2, 0x0A04_0000, 17);
  }

  lemma ComplexMiddle(ns: seq<Node>)
    requires IsFill(0x0A02_8000, 0x0A04_FF00, ns) && 3 < |ns| && ns[3].ip == 0x0A04_8000
    ensures 5 < |ns| && ns[5].ip == 0x0A04_E000
    ensures ns[3].cidr == 18 && ns[4].cidr == 19
  {
    Pow2Table();
    var upto := 0x0A04_FF00;
    var start := 0x0A02_8000;
    FillAt(start, upto, ns, 3, 0x0A04_8000, 18);
    FillAt(start, upto, ns, 4, 0x0A04_C000, 19);
  }

  lemma ComplexTail(ns: seq<Node>)
    requires IsFill(0x0A02_8000, 0x0A04_FF00, ns) && 5 < |ns| && ns[5].ip == 0x0A04_E000
    ensures |ns| == 10
    ensures ns[5].cidr == 20 && ns[6].cidr == 21 && ns[7].cidr == 22 && ns[8].cidr == 23 && ns[9].cidr == 24
  {
    ComplexTailStart(ns);
    ComplexTailMid(ns);
    ComplexTailEnd(ns);
  }

  lemma ComplexTailStart(ns: seq<Node>)
    requires IsFill(0x0A02_8000, 0x0A04_FF00, ns) && 5 < |ns| && ns[5].ip == 0x0A04_E000
    ensures 7 < |ns| && ns[7].ip == 0x0A04_F800
    ensures ns[5].cidr == 20 && ns[6].cidr == 21
  {
    Pow2Table();
    var upto := 0x0A04_FF00;
    var start := 0x0A02_8000;
    FillAt(start, upto, ns, 5, 0x0A04_E000, 20);
    FillAt(start, upto, ns, 6, 0x0A04_F000, 21);
  }

  lemma ComplexTailMid(ns: seq<Node>)
    requires IsFill(0x0A02_8000, 0x0A04_FF00, ns) && 7 < |ns| && ns[7].ip == 0x0A04_F800
    ensures 8 < |ns| && ns[8].ip == 0x0A04_FC00
    ensures ns[7].cidr == 22
  {
    Pow2Table();
    FillAt(0x0A02_8000, 0x0A04_FF00, ns, 7, 0x0A04_F800, 22);
  }

  lemma ComplexTailEnd(ns: seq<Node>)
    requires IsFill(0x0A02_8000, 0x0A04_FF00, ns) && 8 < |ns| && ns[8].ip == 0x0A04_FC00
    ensures |ns| == 10
    ensures ns[8].cidr == 23 && ns[9].cidr == 24
  {
    Pow2Table();
    var upto := 0x0A04_FF00;
    var start := 0x0A02_8000;
    FillAt(start, upto, ns, 8, 0x0A04_FC00, 23);
    FillAt(start, upto, ns, 9, 0x0A04_FE00, 24);
  }
}
