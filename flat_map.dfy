/**
 * The flat-table passes of the build (src/build.mjs:9-102, repeated in
 * src/build.js:137-231): replacing AS numbers by countries, collapsing
 * sibling blocks with equal values, and pruning entries their nearest
 * shorter prefix already answers.
 */
module FlatMap {
  import opened Wrappers
  import opened Arith
  import opened PrefixMath
  import opened TreeNodes
  import opened JsObjects
  import opened UtilTree

  /** An autonomous-system number, as `parseInt` leaves it. */
  type As = int

  /** The flat table: `"ip/cidr"` keys in insertion order, country codes as values. */
  type Table = JsMap<Key, Value>

  // ---------------------------------------------------------------------
  // mergeIP2CountryMap
  // ---------------------------------------------------------------------

  /** `as2country[as] || 'ZZ'`: the country of an AS, 'ZZ' when it is missing or empty. */
  function CountryOf(as2country: map<As, Value>, asn: As): (r: Value)
    ensures r != ""
    ensures asn in as2country && as2country[asn] != "" ==> r == as2country[asn]
    ensures asn !in as2country || as2country[asn] == "" ==> r == "ZZ"
  {
    if asn in as2country && as2country[asn] != "" then as2country[asn] else "ZZ"
  }

  /**
   * `mergeIP2CountryMap` (src/build.mjs:9-26, src/build.js:137-155): each
   * key's AS is replaced by its country. The keys and their order stay as
   * they were.
   */
  method Merge(ip2as: JsMap<Key, As>, as2country: map<As, Value>) returns (r: Table)
    requires Valid(ip2as)
    ensures r.keys == ip2as.keys && Valid(r)
    ensures forall k :: k in r.vals ==> k in ip2as.vals && r.vals[k] == CountryOf(as2country, ip2as.vals[k])
  {
    var vals: map<Key, Value> := map[];
    var i := 0;
    while i < |ip2as.keys|
      invariant i <= |ip2as.keys| && MergedUpTo(ip2as, as2country, vals, i)
    {
      MergeStep(ip2as, as2country, vals, i);
      vals := vals[ip2as.keys[i] := CountryOf(as2country, ip2as.vals[ip2as.keys[i]])];
      i := i + 1;
    }
    assert ip2as.keys[..i] == ip2as.keys;
    r := JsMap(ip2as.keys, vals);
  }

  /** The loop invariant of Merge: the first i keys carry their countries. */
  predicate MergedUpTo(ip2as: JsMap<Key, As>, as2country: map<As, Value>, vals: map<Key, Value>, i: nat)
    requires i <= |ip2as.keys|
  {
    && vals.Keys == KeySet(ip2as.keys[..i])
    && forall k :: k in vals ==> k in ip2as.vals && vals[k] == CountryOf(as2country, ip2as.vals[k])
  }

  lemma MergeStep(ip2as: JsMap<Key, As>, as2country: map<As, Value>, vals: map<Key, Value>, i: nat)
    requires ip2as.vals.Keys == KeySet(ip2as.keys) && i < |ip2as.keys| && MergedUpTo(ip2as, as2country, vals, i)
    ensures ip2as.keys[i] in ip2as.vals
    ensures MergedUpTo(ip2as, as2country, vals[ip2as.keys[i] := CountryOf(as2country, ip2as.vals[ip2as.keys[i]])], i + 1)
  {
    var k := ip2as.keys[i];
    assert k in KeySet(ip2as.keys);
    assert ip2as.keys[..i + 1] == ip2as.keys[..i] + [k];
    KeySetAppend(ip2as.keys[..i], k);
  }

  // ---------------------------------------------------------------------
  // reduceIP2CountryMap
  // ---------------------------------------------------------------------

  /** `prefix ^ (1 << (32 - cidr))`: the other half of the parent block, as a signed 32-bit integer. */
  function Sibling(k: Key): (r: Key)
    ensures r.cidr == k.cidr && -TWO31 <= r.ip < TWO31
  {
    Key(JsFlipBit(k.ip, 32 - k.cidr), k.cidr)
  }

  /**
   * Below 128.0.0.0 the sibling of an aligned /2../32 block is the other half
   * of its parent block: an aligned, non-negative block at a different
   * address with the same parent prefix.
   */
  lemma SiblingLowerHalf(k: Key)
    requires 2 <= k.cidr <= 32 && 0 <= k.ip < TWO31 && Aligned(k.ip, k.cidr)
    ensures var s := Sibling(k);
      && 0 <= s.ip < TWO31 && s.ip != k.ip && Aligned(s.ip, k.cidr)
      && Prefix(s.ip, k.cidr - 1) == Prefix(k.ip, k.cidr - 1)
  {
    var s, v := Sibling(k).ip, Sibling(k).ip % TWO32;
    SiblingBits(k);
    QuotientBelow(v, k.ip, BlockSize(k.cidr - 1), TWO31);
    assert 0 <= s;
    ModUnique(s, 0, s, TWO32);
    SameQuotient(s, k.ip, BlockSize(k.cidr - 1));
  }

  /** From 128.0.0.0 on, `^` on the signed pattern sets the sign: the sibling address is negative. */
  lemma SiblingUpperNegative(k: Key)
    requires 2 <= k.cidr <= 32 && TWO31 <= k.ip < TWO32 && Aligned(k.ip, k.cidr)
    ensures Sibling(k).ip < 0
  {
    SiblingBits(k);
    QuotientAbove(Sibling(k).ip % TWO32, k.ip, BlockSize(k.cidr - 1), TWO31);
  }

  /** 10.0.0.0/8 pairs with 11.0.0.0/8, but 200.0.0.0/8 pairs with 201.0.0.0 - 2^32. */
  lemma SiblingExamples()
    ensures Sibling(Key(0x0A00_0000, 8)) == Key(0x0B00_0000, 8)
    ensures Sibling(Key(0xC800_0000, 8)) == Key(0xC900_0000 - TWO32, 8)
  {
    Pow2Table();
  }

  /**
   * Table keys are unsigned, so a /2../32 key from 128.0.0.0 on never
   * collapses: its sibling key is never present.
   */
  lemma NoUpperCollapse(m: Table, k: Key)
    requires k in m.vals && (forall j :: j in m.vals ==> j.ip >= 0)
    requires 2 <= k.cidr <= 32 && TWO31 <= k.ip < TWO32 && Aligned(k.ip, k.cidr)
    ensures !Collapses(m, k)
  {
    SiblingUpperNegative(k);
  }

  /** The bit facts of a sibling in terms of the block sizes of k and of its parent. */
  lemma SiblingBits(k: Key)
    requires 2 <= k.cidr <= 32 && 0 <= k.ip < TWO32 && Aligned(k.ip, k.cidr)
    ensures var p, d, v := BlockSize(k.cidr), BlockSize(k.cidr - 1), Sibling(k).ip % TWO32;
      && d == 2 * p && TWO31 % d == 0
      && v % p == 0 && (v / p) % 2 != (k.ip / p) % 2 && v / d == k.ip / d
      && (Sibling(k).ip < 0 <==> v >= TWO31)
  {
    var n := 32 - k.cidr;
    JsFlipBitFlips(k.ip, n);
    assert BlockSize(k.cidr - 1) == 2 * Pow2(n);
    HalfSpaceHolds(n);
  }

  /** 2^(n+1) divides 2^31. */
  lemma HalfSpaceHolds(n: nat)
    requires n < 31
    ensures TWO31 % (2 * Pow2(n)) == 0
  {
    Pow2Values();
    Pow2Add(n + 1, 30 - n);
    ModOfProduct(TWO31, 2 * Pow2(n), Pow2(30 - n));
  }

  /** Two values in the same d-block lie on the same side of a multiple m of d: below. */
  lemma QuotientBelow(v: int, x: int, d: int, m: int)
    requires d > 0 && m % d == 0 && v >= 0 && 0 <= x < m && v / d == x / d
    ensures v < m
  {
    MultipleBelow(x, m, d);
    assert v == (v / d) * d + v % d;
  }

  /** Two values in the same d-block lie on the same side of a multiple m of d: above. */
  lemma QuotientAbove(v: int, x: int, d: int, m: int)
    requires d > 0 && m % d == 0 && 0 <= m <= x && v / d == x / d
    ensures v >= m
  {
    var h := x / d;
    assert x == h * d + x % d;
    ModOfMultiple(h, d);
    if h * d < m {
      MultipleGap(h * d, m, d);
    }
    assert v == h * d + v % d;
  }

  /** Two values with the same quotient by d round down to the same multiple of d. */
  lemma SameQuotient(v: int, x: int, d: int)
    requires d > 0 && v / d == x / d
    ensures v - v % d == x - x % d
  {
    assert v == (v / d) * d + v % d;
    assert x == (x / d) * d + x % d;
  }

  /** The sibling key holds the identical value (src/build.mjs:49). */
  predicate Collapses(m: Table, k: Key)
    requires k in m.vals
  {
    Sibling(k) in m.vals && m.vals[Sibling(k)] == m.vals[k]
  }

  /**
   * Where one pass writes key k's value: the parent block
   * `prefix(prefix, cidr - 1)/(cidr - 1)` when k collapses, k itself
   * otherwise. A collapse below /1 or above /33 leaves the prefix arithmetic.
   */
  function Target(m: Table, k: Key): (r: Result<Key>)
    requires k in m.vals
    ensures r.Ok? && Collapses(m, k) ==> 1 <= k.cidr <= 33 && r.value == Key(Prefix(k.ip, k.cidr - 1), k.cidr - 1)
    ensures r.Ok? && !Collapses(m, k) ==> r.value == k
    ensures r.Err? <==> Collapses(m, k) && !(1 <= k.cidr <= 33)
  {
    if !Collapses(m, k) then Ok(k)
    else if 1 <= k.cidr <= 33 then Ok(Key(Prefix(k.ip, k.cidr - 1), k.cidr - 1))
    else Err(OutsideModel)
  }

  /** One iteration of a pass: the key read, where its value goes, the value, and whether it collapsed. */
  datatype Write = Write(source: Key, target: Result<Key>, value: Value, collapsed: bool)

  /** The stored keys are exactly the listed ones (Valid without the distinctness of the list). */
  predicate Listed(m: Table) {
    m.vals.Keys == KeySet(m.keys)
  }

  lemma KeyIn(m: Table, j: int)
    requires Listed(m) && 0 <= j < |m.keys|
    ensures m.keys[j] in m.vals
  {
    assert m.keys[j] in KeySet(m.keys);
  }

  /** The iterations of one pass over m, in `Object.keys` order. */
  function Writes(m: Table): (ws: seq<Write>)
    requires Listed(m)
    ensures |ws| == |m.keys|
    ensures forall j :: 0 <= j < |ws| ==> ws[j].source == m.keys[j] && m.keys[j] in m.vals
    ensures forall j :: 0 <= j < |ws| ==>
      ws[j] == Write(m.keys[j], Target(m, m.keys[j]), m.vals[m.keys[j]], Collapses(m, m.keys[j]))
  {
    seq(|m.keys|, j requires 0 <= j < |m.keys| =>
      KeyIn(m, j);
      var k := m.keys[j];
      Write(k, Target(m, k), m.vals[k], Collapses(m, k)))
  }

  /** Running writes in order on a fresh table (src/build.mjs:44-56): the table and the collapse count. */
  function Fold(ws: seq<Write>): Result<(Table, nat)>
    decreases |ws|
  {
    if ws == [] then Ok((EmptyMap(), 0))
    else
      var w := ws[|ws| - 1];
      match Fold(ws[..|ws| - 1])
      case Err(e) => Err(e)
      case Ok(p) =>
        match w.target
        case Err(e) => Err(e)
        case Ok(t) => Ok((Put(p.0, t, w.value), p.1 + if w.collapsed then 1 else 0))
  }

  /** The last write to t, or -1. */
  function LastWriter(ws: seq<Write>, t: Key): (r: int)
    ensures -1 <= r < |ws|
    ensures r >= 0 ==> ws[r].target == Ok(t)
    ensures forall j :: r < j < |ws| ==> ws[j].target != Ok(t)
  {
    if ws == [] then -1
    else if ws[|ws| - 1].target == Ok(t) then |ws| - 1
    else LastWriter(ws[..|ws| - 1], t)
  }

  /** How many writes collapsed. */
  function Count(ws: seq<Write>): nat {
    if ws == [] then 0 else Count(ws[..|ws| - 1]) + if ws[|ws| - 1].collapsed then 1 else 0
  }

  /** The keys the writes read. */
  function Sources(ws: seq<Write>): (r: seq<Key>)
    ensures |r| == |ws| && forall j :: 0 <= j < |ws| ==> r[j] == ws[j].source
  {
    seq(|ws|, j requires 0 <= j < |ws| => ws[j].source)
  }

  /** The writes before the last. */
  lemma Front(ws: seq<Write>)
    requires ws != []
    ensures forall j :: 0 <= j < |ws| - 1 ==> ws[..|ws| - 1][j] == ws[j]
  {
  }

  /** One more write, with target t, on a run that succeeded so far. */
  lemma FoldStepOk(ws: seq<Write>, i: nat, out: Table, same: nat, t: Key, v: Value, c: bool)
    requires i < |ws| && Fold(ws[..i]) == Ok((out, same)) && ws[i] == Write(ws[i].source, Ok(t), v, c)
    ensures Fold(ws[..i + 1]) == Ok((Put(out, t, v), same + if c then 1 else 0))
  {
    var front := ws[..i + 1][..i];
    assert front == ws[..i];
    assert ws[..i + 1][i] == ws[i];
  }

  /** A run of writes fails exactly when one of them has no target. */
  lemma {:induction false} FoldFails(ws: seq<Write>)
    ensures Fold(ws).Err? <==> exists j :: 0 <= j < |ws| && ws[j].target.Err?
    decreases |ws|
  {
    if ws != [] {
      FoldFails(ws[..|ws| - 1]);
      Front(ws);
      if Fold(ws[..|ws| - 1]).Err? {
        var j :| 0 <= j < |ws| - 1 && ws[..|ws| - 1][j].target.Err?;
        assert ws[j].target.Err?;
      }
    }
  }

  /**
   * A run that succeeds leaves a valid table holding exactly the targets
   * written, each with the value of its last write, and counts the collapses.
   */
  lemma {:induction false} FoldWrites(ws: seq<Write>)
    requires Fold(ws).Ok?
    ensures Valid(Fold(ws).value.0) && Fold(ws).value.1 == Count(ws)
    ensures forall t :: t in Fold(ws).value.0.vals <==> LastWriter(ws, t) >= 0
    ensures forall t :: t in Fold(ws).value.0.vals ==> Fold(ws).value.0.vals[t] == ws[LastWriter(ws, t)].value
    decreases |ws|
  {
    if ws != [] {
      FoldWrites(ws[..|ws| - 1]);
      Front(ws);
    }
  }

  /** The weight of a key: its prefix length, or 0 when that is not positive. */
  function Weight(k: Key): nat {
    if k.cidr > 0 then k.cidr else 0
  }

  /** The total weight of a key list. */
  function Weights(ks: seq<Key>): nat {
    if ks == [] then 0 else Weights(ks[..|ks| - 1]) + Weight(ks[|ks| - 1])
  }

  /** A write moves its value to a block at most as heavy as its source, and strictly lighter when it collapses. */
  predicate Descends(w: Write) {
    w.target.Ok? ==> Weight(w.target.value) + (if w.collapsed then 1 else 0) <= Weight(w.source)
  }

  /**
   * Keys that coincide are stored once, so the weight of the table a run
   * leaves drops below that of its sources by at least the number of collapses.
   */
  lemma {:induction false} FoldWeight(ws: seq<Write>)
    requires Fold(ws).Ok? && forall j :: 0 <= j < |ws| ==> Descends(ws[j])
    ensures Weights(Fold(ws).value.0.keys) + Fold(ws).value.1 <= Weights(Sources(ws))
    decreases |ws|
  {
    if ws != [] {
      Front(ws);
      FoldWeight(ws[..|ws| - 1]);
      assert Sources(ws)[..|ws| - 1] == Sources(ws[..|ws| - 1]);
    }
  }

  /** Writes that each put a key back in its own place, with distinct keys, rebuild the table they read. */
  lemma {:induction false} FoldCopies(ws: seq<Write>)
    requires forall j :: 0 <= j < |ws| ==> ws[j].target == Ok(ws[j].source) && !ws[j].collapsed
    requires forall i, j :: 0 <= i < j < |ws| ==> ws[i].source != ws[j].source
    ensures Fold(ws).Ok? && Fold(ws).value.1 == 0 && Fold(ws).value.0.keys == Sources(ws)
    decreases |ws|
  {
    if ws != [] {
      Front(ws);
      FoldCopies(ws[..|ws| - 1]);
      FoldWrites(ws[..|ws| - 1]);
      var w := ws[|ws| - 1];
      assert Sources(ws) == Sources(ws[..|ws| - 1]) + [w.source];
    }
  }

  /** Every iteration of a pass over m moves its value no higher than its own key. */
  lemma PassDescends(m: Table)
    requires Listed(m)
    ensures forall j :: 0 <= j < |Writes(m)| ==> Descends(Writes(m)[j])
    ensures Sources(Writes(m)) == m.keys
  {
  }

  /**
   * What one pass over m does: it fails exactly when a collapsing key's
   * parent is outside the prefix arithmetic. Otherwise every key it writes
   * to is present and holds the value of the last key of m written there,
   * the count is the number of collapsing keys, and the weight drops by at
   * least that count.
   */
  lemma PassFacts(m: Table)
    requires Listed(m)
    ensures Fold(Writes(m)).Err? <==> exists j :: 0 <= j < |m.keys| && Writes(m)[j].target.Err?
    ensures Fold(Writes(m)).Ok? ==>
      && Valid(Fold(Writes(m)).value.0)
      && Fold(Writes(m)).value.1 == Count(Writes(m))
      && (forall t :: t in Fold(Writes(m)).value.0.vals <==> LastWriter(Writes(m), t) >= 0)
      && (forall t :: t in Fold(Writes(m)).value.0.vals ==>
            Fold(Writes(m)).value.0.vals[t] == m.vals[m.keys[LastWriter(Writes(m), t)]])
      && Weights(Fold(Writes(m)).value.0.keys) + Fold(Writes(m)).value.1 <= Weights(m.keys)
  {
    FoldFails(Writes(m));
    if Fold(Writes(m)).Ok? {
      PassTable(m);
    }
  }

  /** The table and count of a pass that succeeds (the second half of PassFacts). */
  lemma PassTable(m: Table)
    requires Listed(m) && Fold(Writes(m)).Ok?
    ensures var p := Fold(Writes(m)).value;
      && Valid(p.0) && p.1 == Count(Writes(m))
      && (forall t :: t in p.0.vals <==> LastWriter(Writes(m), t) >= 0)
      && (forall t :: t in p.0.vals ==> p.0.vals[t] == m.vals[m.keys[LastWriter(Writes(m), t)]])
      && Weights(p.0.keys) + p.1 <= Weights(m.keys)
  {
    var ws := Writes(m);
    FoldWrites(ws);
    PassDescends(m);
    FoldWeight(ws);
  }

  /**
   * One reduce pass (src/build.mjs:44-56, src/build.js:174-185) on a fresh
   * table; the input is only read. Its outcome is the run of its writes,
   * whose properties PassFacts states.
   */
  method ReducePass(m: Table) returns (r: Result<(Table, nat)>)
    requires Listed(m)
    ensures r.Err? <==> Fold(Writes(m)).Err?
    ensures r.Ok? ==> r == Fold(Writes(m))
  {
    var out: Table := EmptyMap();
    var same := 0;
    var i := 0;
    while i < |m.keys|
      invariant i <= |m.keys| && Fold(Writes(m)[..i]) == Ok((out, same))
    {
      var k := m.keys[i];
      KeyIn(m, i);
      var t := Target(m, k);
      if t.Err? {
        PassStops(m, i);
        return Err(t.error);
      }
      PassStep(m, i, out, same);
      if Collapses(m, k) {
        same := same + 1;
      }
      out := Put(out, t.value, m.vals[k]);
      i := i + 1;
    }
    PassEnds(m, i);
    r := Ok((out, same));
  }

  /** Iteration i of a pass whose target is defined extends the run of writes before it. */
  lemma PassStep(m: Table, i: nat, out: Table, same: nat)
    requires Listed(m) && i < |m.keys| && Fold(Writes(m)[..i]) == Ok((out, same))
    requires m.keys[i] in m.vals && Target(m, m.keys[i]).Ok?
    ensures Fold(Writes(m)[..i + 1]) ==
      Ok((Put(out, Target(m, m.keys[i]).value, m.vals[m.keys[i]]), same + if Collapses(m, m.keys[i]) then 1 else 0))
  {
    var ws := Writes(m);
    var k := m.keys[i];
    var t, c := Target(m, k), Collapses(m, k);
    assert ws[i] == Write(k, Ok(t.value), m.vals[k], c);
    FoldStepOk(ws, i, out, same, t.value, m.vals[k], c);
  }

  /** Iteration i of a pass has no target: the whole run fails. */
  lemma PassStops(m: Table, i: nat)
    requires Listed(m) && i < |m.keys| && m.keys[i] in m.vals && Target(m, m.keys[i]).Err?
    ensures Fold(Writes(m)).Err?
  {
    FoldFails(Writes(m));
  }

  /** After the last iteration the run of writes is the whole pass. */
  lemma PassEnds(m: Table, i: nat)
    requires Listed(m) && i == |m.keys|
    ensures Writes(m)[..i] == Writes(m)
  {
  }

  /** Every key of the table is an aligned block inside the address space. */
  predicate ValidKeys(m: Table) {
    forall k :: k in m.vals ==> ValidKey(k)
  }

  /**
   * In a table of valid keys every iteration has a target: the only key
   * outside /1../33 is 0.0.0.0/0, whose sibling 1/0 is not aligned and so
   * is never a key.
   */
  lemma ValidTarget(m: Table, k: Key)
    requires k in m.vals && ValidKeys(m)
    ensures Target(m, k).Ok?
  {
    if k.cidr == 0 {
      RootSibling(k);
    }
  }

  /** The only valid /0 key is 0.0.0.0/0, and its sibling 1/0 is not a valid key. */
  lemma RootSibling(k: Key)
    requires ValidKey(k) && k.cidr == 0
    ensures k == Key(0, 0) && Sibling(k) == Key(1, 0) && !ValidKey(Sibling(k))
  {
    Pow2Values();
    assert JsFlipBit(0, 32) == 1;
  }

  /** A pass over a table of valid keys succeeds and writes only valid keys. */
  lemma PassValid(m: Table)
    requires Listed(m) && ValidKeys(m)
    ensures Fold(Writes(m)).Ok? && ValidKeys(Fold(Writes(m)).value.0)
  {
    var ws := Writes(m);
    forall j | 0 <= j < |ws| ensures ws[j].target.Ok? {
      ValidTarget(m, m.keys[j]);
    }
    FoldFails(ws);
    PassTable(m);
    var out := Fold(ws).value.0;
    forall t | t in out.vals ensures ValidKey(t) {
      var k := m.keys[LastWriter(ws, t)];
      if Collapses(m, k) {
        PrefixValid(k, k.cidr - 1);
      }
    }
  }

  /** No key's sibling key holds the same value: a pass would collapse nothing. */
  predicate Stable(m: Table) {
    forall k :: k in m.vals ==> !Collapses(m, k)
  }

  /** The values a table stores. */
  function Values(m: Table): set<Value> {
    set k | k in m.vals :: m.vals[k]
  }

  /** A pass that collapses nothing means the table was stable. */
  lemma {:induction false} CountZero(ws: seq<Write>)
    requires Count(ws) == 0
    ensures forall j :: 0 <= j < |ws| ==> !ws[j].collapsed
    decreases |ws|
  {
    if ws != [] {
      Front(ws);
      CountZero(ws[..|ws| - 1]);
    }
  }

  /** On a stable table every write puts a key back in its own place, and the keys are distinct. */
  lemma StableWrites(m: Table)
    requires Valid(m) && Stable(m)
    ensures forall j :: 0 <= j < |Writes(m)| ==> Writes(m)[j].target == Ok(Writes(m)[j].source) && !Writes(m)[j].collapsed
    ensures forall i, j :: 0 <= i < j < |Writes(m)| ==> Writes(m)[i].source != Writes(m)[j].source
  {
    forall j | 0 <= j < |m.keys|
      ensures Writes(m)[j].target == Ok(Writes(m)[j].source) && !Writes(m)[j].collapsed
    {
      assert !Collapses(m, m.keys[j]);
    }
  }

  /** A stable table is a fixpoint of the pass. */
  lemma PassStable(m: Table)
    requires Valid(m) && Stable(m)
    ensures Fold(Writes(m)) == Ok((m, 0))
  {
    var ws := Writes(m);
    StableWrites(m);
    FoldCopies(ws);
    FoldWrites(ws);
    PassDescends(m);
    var out := Fold(ws).value.0;
    forall t | t in out.vals ensures out.vals[t] == m.vals[t] {
      var j := LastWriter(ws, t);
      assert ws[j].source == t;
    }
    SameObject(out, m);
  }

  /**
   * `reduceIP2CountryMap` (src/build.mjs:30-65, src/build.js:159-193): passes
   * repeat while one collapses something. A table of valid keys always
   * reduces; the result is stable, holds only values of the input, and a
   * stable input comes back unchanged.
   */
  method Reduce(m: Table) returns (r: Result<Table>)
    requires Valid(m)
    decreases Weights(m.keys)
    ensures ValidKeys(m) ==> r.Ok? && ValidKeys(r.value)
    ensures r.Ok? ==> Valid(r.value) && Stable(r.value)
    ensures r.Ok? ==> Values(r.value) <= Values(m)
    ensures Stable(m) ==> r == Ok(m)
  {
    var pass := ReducePass(m);
    PassFacts(m);
    if ValidKeys(m) {
      PassValid(m);
    }
    if pass.Err? {
      if Stable(m) {
        PassStable(m);
      }
      return Err(pass.error);
    }
    var out, same := pass.value.0, pass.value.1;
    assert Values(out) <= Values(m) by {
      forall v | v in Values(out) ensures v in Values(m) {
        var t :| t in out.vals && out.vals[t] == v;
        KeyIn(m, LastWriter(Writes(m), t));
      }
    }
    if same > 0 {
      r := Reduce(out);
      if Stable(m) {
        PassStable(m);
      }
    } else {
      CountZero(Writes(m));
      assert Stable(m) by {
        forall k | k in m.vals ensures !Collapses(m, k) {
          assert k in KeySet(m.keys);
          var j :| 0 <= j < |m.keys| && m.keys[j] == k;
          assert !Writes(m)[j].collapsed;
        }
      }
      PassStable(m);
      r := Ok(out);
    }
  }
}
