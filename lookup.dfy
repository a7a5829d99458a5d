/**
 * The runtime lookup of src/lookup.js: the /24 network of an address, then a
 * search of the nested table `table[base][cidr]` over /24 ... /9 blocks,
 * widening the base 16 times. The table is a parameter instead of a global.
 */
module Lookup {
  import opened Wrappers
  import opened Arith
  import opened PrefixMath
  import opened JsText

  /** `table[base][String(cidr)]`: the generated lookup table. */
  type LookupTable = map<int, map<int, string>>

  /** The argument of the lookup: a dotted-quad string or a number. */
  datatype Ip = Text(s: string) | Number(n: int)

  /** `getClassC`'s result: the /24 base, or the string 'unknown'. */
  datatype ClassC = Unknown | Base(n: int)

  const UNKNOWN: string := "unknown"

  /**
   * `getClassC` as written (src/lookup.js:7-21): a string needs four
   * dot-separated parts, its first four bytes are read as a signed integer,
   * and the truncating `%` aligns the result to 256. `toOctet` is the
   * Buffer's conversion of one part to a byte.
   */
  function ClassCAsWritten(ip: Ip, toOctet: string -> Octet): ClassC {
    match ip
    case Number(n) => Base(n - JsRem(n, 256))
    case Text(s) =>
      var parts := Split(s, '.');
      if |parts| < 4 then Unknown
      else
        var c := ReadInt32BE(toOctet(parts[0]), toOctet(parts[1]), toOctet(parts[2]), toOctet(parts[3]));
        Base(c - JsRem(c, 256))
  }

  /** `getClassC` with the four bytes read unsigned, the address the dotted quad names. */
  function ClassCOf(ip: Ip, toOctet: string -> Octet): (r: ClassC)
    ensures ip.Text? ==> (r.Unknown? <==> |Split(ip.s, '.')| < 4)
    ensures ip.Number? ==> r.Base?
  {
    match ip
    case Number(n) => Base(n - JsRem(n, 256))
    case Text(s) =>
      var parts := Split(s, '.');
      if |parts| < 4 then Unknown
      else
        var u := ReadUInt32BE(toOctet(parts[0]), toOctet(parts[1]), toOctet(parts[2]), toOctet(parts[3]));
        Base(u - JsRem(u, 256))
  }

  /** For a four-part string the base is the /24 block of the unsigned address. */
  lemma ClassCIsPrefix(ip: Ip, toOctet: string -> Octet)
    requires ip.Text? && |Split(ip.s, '.')| >= 4
    ensures var parts := Split(ip.s, '.');
      var u := ReadUInt32BE(toOctet(parts[0]), toOctet(parts[1]), toOctet(parts[2]), toOctet(parts[3]));
      ClassCOf(ip, toOctet) == Base(Prefix(u, 24)) && 0 <= Prefix(u, 24) < TWO32
  {
    Pow2Table();
  }

  /**
   * As written, the address 128.208.4.1 gets the base 128.208.5.0 - 2^32:
   * the signed read makes the value negative, and the truncating `%` rounds
   * it towards zero, into the next /24 block. Unsigned, the base is
   * 128.208.4.0.
   */
  lemma ClassCSignedMisplaces(toOctet: string -> Octet)
    requires toOctet("128") == 128 && toOctet("208") == 208 && toOctet("4") == 4 && toOctet("1") == 1
    ensures ClassCAsWritten(Text(Join(["128", "208", "4", "1"], '.')), toOctet) == Base(0x80D0_0500 - TWO32)
    ensures ClassCOf(Text(Join(["128", "208", "4", "1"], '.')), toOctet) == Base(0x80D0_0400)
  {
    var parts: seq<string> := ["128", "208", "4", "1"];
    assert forall i :: 0 <= i < |parts| ==> '.' !in parts[i];
    SplitJoin(parts, '.');
    assert ReadInt32BE(128, 208, 4, 1) == 0x80D0_0401 - TWO32;
    assert JsRem(0x80D0_0401 - TWO32, 256) == -0xFF;
    assert ReadUInt32BE(128, 208, 4, 1) == 0x80D0_0401;
  }

  /** `!ip`: the number 0 and the empty string are falsy. */
  predicate Falsy(ip: Ip) {
    ip == Number(0) || ip == Text("")
  }

  /** `classC -= classC % (256 << offset)`: the base widened to a multiple of 2^(8 + offset). */
  function Realign(base: int, offset: nat): int {
    base - JsRem(base, Pow2(8 + offset))
  }

  /** The base the search tries at offset o, starting from b0. */
  function BaseAt(b0: int, o: nat): int {
    if o == 0 then b0 else Realign(BaseAt(b0, o - 1), o)
  }

  /** The first cidr from hi down to 9 that the row has (`keys.indexOf(String(i)) >= 0`). */
  function First(row: map<int, string>, hi: int): (r: Option<int>)
    decreases hi
    ensures r.Some? ==> 9 <= r.value <= hi && r.value in row && forall c :: r.value < c <= hi ==> c !in row
    ensures r.None? ==> forall c :: 9 <= c <= hi ==> c !in row
  {
    if hi <= 8 then None
    else if hi in row then Some(hi)
    else First(row, hi - 1)
  }

  /** Offset o finds nothing: no row at its base, or no cidr from 24 - o down to 9 in it. */
  predicate Miss(table: LookupTable, b: int, o: nat) {
    b !in table || First(table[b], 24 - o).None?
  }

  /** Where a search hits: the offset the base was widened by, the base, and the cidr found. */
  datatype Spot = Spot(offset: nat, base: int, cidr: int)

  /** Offset o of a search from base b0 misses. */
  predicate MissAt(table: LookupTable, b0: int, o: nat) {
    Miss(table, BaseAt(b0, o), o)
  }

  /**
   * The iterations of src/lookup.js:40-51 from offset o with the current
   * base: the first that finds a cidr, with its base and that cidr; None
   * when all of them miss.
   */
  function Search(table: LookupTable, base: int, o: nat): (r: Option<Spot>)
    decreases 16 - o
    ensures r.Some? ==> o <= r.value.offset < 16 && r.value.base in table
    ensures r.Some? ==> First(table[r.value.base], 24 - r.value.offset) == Some(r.value.cidr)
  {
    if o >= 16 then None
    else if !Miss(table, base, o) then Some(Spot(o, base, First(table[base], 24 - o).value))
    else Search(table, Realign(base, o + 1), o + 1)
  }

  /** The answer the lookup gives: 'unknown' for a falsy or unparsable ip or a miss, else the hit's value. */
  function Answer(table: LookupTable, ip: Ip, toOctet: string -> Octet): string {
    var c := ClassCOf(ip, toOctet);
    if Falsy(ip) || c.Unknown? then UNKNOWN else Scan(table, c.n, 0)
  }

  /** The inner loop of src/lookup.js:43-47: cidrs from hi down to 9, the first the row has. */
  method FindCidr(row: map<int, string>, hi: int) returns (r: Option<int>)
    ensures r == First(row, hi)
  {
    var i := hi;
    while i > 8
      invariant i <= hi
      invariant forall c :: i < c <= hi ==> c !in row
    {
      if i in row {
        return Some(i);
      }
      i := i - 1;
    }
    return None;
  }

  /** The value the iterations from offset o on return, 'unknown' when every one misses. */
  function Scan(table: LookupTable, base: int, o: nat): string
    decreases 16 - o
  {
    if o >= 16 then UNKNOWN
    else if !Miss(table, base, o) then table[base][First(table[base], 24 - o).value]
    else Scan(table, Realign(base, o + 1), o + 1)
  }

  /** The value returned is the one at the spot the search hits. */
  lemma {:induction false} ScanReadsSearch(table: LookupTable, base: int, o: nat)
    decreases 16 - o
    ensures var s := Search(table, base, o);
      Scan(table, base, o) == if s.None? then UNKNOWN else table[s.value.base][s.value.cidr]
  {
    if o < 16 && Miss(table, base, o) {
      ScanReadsSearch(table, Realign(base, o + 1), o + 1);
    }
  }

  /** The search loop of src/lookup.js:40-52, from the /24 base b0. */
  method Probe(table: LookupTable, b0: int) returns (r: string)
    ensures r == Scan(table, b0, 0)
  {
    var base := b0;
    var offset := 0;
    while offset < 16
      invariant 0 <= offset <= 16
      invariant Scan(table, b0, 0) == Scan(table, base, offset)
    {
      if base in table {
        var row := table[base];
        var hit := FindCidr(row, 24 - offset);
        if hit.Some? {
          return row[hit.value];
        }
      }
      offset := offset + 1;
      base := Realign(base, offset);
    }
    return UNKNOWN;
  }

  /** The exported lookup function of src/lookup.js:30-53. */
  method LookupIp(table: LookupTable, ip: Ip, toOctet: string -> Octet) returns (r: string)
    ensures r == Answer(table, ip, toOctet)
  {
    var classC := ClassCOf(ip, toOctet);
    if Falsy(ip) || classC.Unknown? {
      return UNKNOWN;
    }
    r := Probe(table, classC.n);
  }

  /**
   * Every offset a search from b0 passes over misses, its hit is at the
   * base widened that often, and it finds nothing exactly when every offset
   * misses.
   */
  lemma SearchMisses(table: LookupTable, b0: int, o: nat)
    ensures var r := Search(table, BaseAt(b0, o), o);
      r.Some? ==> r.value.base == BaseAt(b0, r.value.offset) && forall o' :: o <= o' < r.value.offset ==> MissAt(table, b0, o')
    ensures Search(table, BaseAt(b0, o), o).None? <==> forall o' :: o <= o' < 16 ==> MissAt(table, b0, o')
  {
    SearchHit(table, b0, o);
    SearchNone(table, b0, o);
  }

  /** A search from offset o that hits does so at the widened base, after misses only. */
  lemma {:induction false} SearchHit(table: LookupTable, b0: int, o: nat)
    decreases 16 - o
    ensures var r := Search(table, BaseAt(b0, o), o);
      r.Some? ==> r.value.base == BaseAt(b0, r.value.offset) && forall o' :: o <= o' < r.value.offset ==> MissAt(table, b0, o')
  {
    if o < 16 {
      var b := BaseAt(b0, o);
      assert BaseAt(b0, o + 1) == Realign(b, o + 1);
      SearchHit(table, b0, o + 1);
      if Miss(table, b, o) {
        var r := Search(table, BaseAt(b0, o + 1), o + 1);
        assert Search(table, b, o) == r;
        assert MissAt(table, b0, o);
        if r.Some? {
          forall o' | o <= o' < r.value.offset
            ensures MissAt(table, b0, o')
          {
            if o' > o {
              assert o + 1 <= o' < r.value.offset;
            }
          }
        }
      }
    }
  }

  /** A search from offset o finds nothing exactly when every offset from o on misses. */
  lemma {:induction false} SearchNone(table: LookupTable, b0: int, o: nat)
    decreases 16 - o
    ensures Search(table, BaseAt(b0, o), o).None? <==> forall o' :: o <= o' < 16 ==> MissAt(table, b0, o')
  {
    if o < 16 {
      var b := BaseAt(b0, o);
      assert BaseAt(b0, o + 1) == Realign(b, o + 1);
      SearchNone(table, b0, o + 1);
      if Miss(table, b, o) {
        assert Search(table, b, o) == Search(table, BaseAt(b0, o + 1), o + 1);
        assert MissAt(table, b0, o);
      } else {
        assert !MissAt(table, b0, o);
      }
    }
  }

  /** When every offset misses the search returns 'unknown'. */
  lemma AllMissUnknown(table: LookupTable, b0: int)
    ensures (forall o :: 0 <= o < 16 ==> MissAt(table, b0, o)) ==> Scan(table, b0, 0) == UNKNOWN
  {
    SearchMisses(table, b0, 0);
    ScanReadsSearch(table, b0, 0);
  }

  /** A falsy or unparsable ip, or a miss at all 16 offsets, answers 'unknown'. */
  lemma UnknownCases(table: LookupTable, ip: Ip, toOctet: string -> Octet)
    ensures Falsy(ip) ==> Answer(table, ip, toOctet) == UNKNOWN
    ensures ip.Text? && |Split(ip.s, '.')| < 4 ==> Answer(table, ip, toOctet) == UNKNOWN
    ensures !Falsy(ip) && ClassCOf(ip, toOctet).Base? ==>
      ((forall o :: 0 <= o < 16 ==> MissAt(table, ClassCOf(ip, toOctet).n, o)) ==> Answer(table, ip, toOctet) == UNKNOWN)
  {
    var c := ClassCOf(ip, toOctet);
    if c.Base? {
      AllMissUnknown(table, c.n);
    }
  }

  /** The address an ip names: the number itself, or the unsigned value of a dotted quad's first four parts. */
  function Address(ip: Ip, toOctet: string -> Octet): Option<int> {
    match ip
    case Number(n) => Some(n)
    case Text(s) =>
      var parts := Split(s, '.');
      if |parts| < 4 then None
      else Some(ReadUInt32BE(toOctet(parts[0]), toOctet(parts[1]), toOctet(parts[2]), toOctet(parts[3])))
  }

  /** The class C is the address's /24 base, and 'unknown' exactly when the ip names no address. */
  lemma ClassCOfAddress(ip: Ip, toOctet: string -> Octet)
    ensures Address(ip, toOctet).None? <==> ClassCOf(ip, toOctet).Unknown?
    ensures Address(ip, toOctet).Some? ==>
      var a := Address(ip, toOctet).value;
      ClassCOf(ip, toOctet) == Base(a - JsRem(a, 256))
  {
  }

  /** The /24 base of a non-negative address is its /24 prefix. */
  lemma ClassCIsBlock(a: int)
    requires a >= 0
    ensures a - JsRem(a, 256) == Prefix(a, 24)
  {
    Pow2Table();
  }

  /** Widening the /c prefix of a non-negative address at offset 24 - c + 1 gives its /(c - 1) prefix. */
  lemma RealignPrefix(a: int, o: nat)
    requires a >= 0 && o < 16
    ensures Realign(Prefix(a, 24 - o), o + 1) == Prefix(a, 24 - (o + 1))
  {
    var b := Prefix(a, 24 - o);
    MultipleNonNegative(b, BlockSize(24 - o));
    assert Realign(b, o + 1) == b - b % BlockSize(24 - (o + 1));
    PrefixOfPrefix(a, 24 - o, 24 - (o + 1));
  }

  /** From the /(24 - o) prefix of a non-negative address, every base tried is a prefix of the address. */
  lemma HitIsPrefix(table: LookupTable, a: int, o: nat, s: Spot)
    requires a >= 0 && o <= 16 && Search(table, Prefix(a, 24 - o), o) == Some(s)
    ensures s.base == Prefix(a, 24 - s.offset)
  {
    BaseAtPrefix(a, o);
    SearchHit(table, Prefix(a, 24), o);
    BaseAtPrefix(a, s.offset);
  }

  /** Widening the /24 prefix of a non-negative address o times gives its /(24 - o) prefix. */
  lemma {:induction false} BaseAtPrefix(a: int, o: nat)
    requires a >= 0 && o <= 16
    ensures BaseAt(Prefix(a, 24), o) == Prefix(a, 24 - o)
  {
    if o > 0 {
      BaseAtPrefix(a, o - 1);
      RealignPrefix(a, o - 1);
    }
  }

  /** The search from a's /24 prefix returns 'unknown' when it finds nothing. */
  lemma ScanMisses(table: LookupTable, a: int)
    ensures Search(table, Prefix(a, 24), 0).None? ==> Scan(table, Prefix(a, 24), 0) == UNKNOWN
  {
    ScanReadsSearch(table, Prefix(a, 24), 0);
  }

  /**
   * When the search from the /24 prefix of a non-negative address a hits
   * spot s, it returns the value the table stores for cidr s.cidr at the
   * /(24 - s.offset) prefix of a, and that block contains a.
   */
  lemma ScanCovers(table: LookupTable, a: int, s: Spot)
    requires a >= 0 && Search(table, Prefix(a, 24), 0) == Some(s)
    ensures var b := Prefix(a, 24 - s.offset);
      && s.base == b && b in table && s.cidr in table[b]
      && Scan(table, Prefix(a, 24), 0) == table[b][s.cidr]
      && b <= a < b + BlockSize(s.cidr)
  {
    HitIsPrefix(table, a, 0, s);
    ScanReadsSearch(table, Prefix(a, 24), 0);
    PrefixCovers(a, s.cidr, 24 - s.offset);
  }

  /** The /c2 prefix of a lies in a /c block from its start when c <= c2. */
  lemma PrefixCovers(a: int, c: int, c2: int)
    requires 0 <= c <= c2 <= 32
    ensures Prefix(a, c2) <= a < Prefix(a, c2) + BlockSize(c)
  {
    BlockSizeFactor(c, c2);
  }

  /**
   * End to end: a truthy ip that names a non-negative address answers what
   * the search from the address's /24 prefix returns, which ScanCovers
   * and ScanMisses describe.
   */
  lemma AnswerCovers(table: LookupTable, ip: Ip, toOctet: string -> Octet, a: int)
    requires !Falsy(ip) && Address(ip, toOctet) == Some(a) && a >= 0
    ensures Answer(table, ip, toOctet) == Scan(table, Prefix(a, 24), 0)
  {
    ClassCIsBlock(a);
    ClassCOfSome(ip, toOctet, a);
    AnswerOfBase(table, ip, toOctet, Prefix(a, 24));
  }

  /** The class C of an ip that names address a is a's /24 base. */
  lemma ClassCOfSome(ip: Ip, toOctet: string -> Octet, a: int)
    requires Address(ip, toOctet) == Some(a)
    ensures ClassCOf(ip, toOctet) == Base(a - JsRem(a, 256))
  {
    ClassCOfAddress(ip, toOctet);
  }

  /** A truthy ip with a base answers what the search from that base returns. */
  lemma AnswerOfBase(table: LookupTable, ip: Ip, toOctet: string -> Octet, n: int)
    requires !Falsy(ip) && ClassCOf(ip, toOctet) == Base(n)
    ensures Answer(table, ip, toOctet) == Scan(table, n, 0)
  {
  }
}
