/**
 * `dedupeIP2CountryMap` (src/build.mjs:69-98, repeated in src/build.js:197-231):
 * an entry is dropped when the nearest shorter prefix with an entry already
 * carries the same value, so a longest-prefix match answers the same.
 */
module Dedupe {
  import opened Wrappers
  import opened PrefixMath
  import opened TreeNodes
  import opened JsObjects
  import opened UtilTree
  import opened FlatMap

  /** The longest prefix length c' <= c at which ip has a truthy entry (`map[prefix + '/' + c']`), or None. */
  function Nearest(m: Table, ip: int, c: int): (r: Option<int>)
    requires c <= 32
    decreases c + 1
    ensures r.Some? ==> 0 <= r.value <= c && MatchAt(m, ip, r.value)
    ensures forall c' :: 0 <= c' <= c && (r.None? || r.value < c') ==> !MatchAt(m, ip, c')
  {
    if c < 0 then None
    else if MatchAt(m, ip, c) then Some(c)
    else Nearest(m, ip, c - 1)
  }

  /** The value of the longest truthy block of length at most c around ip. */
  function LpmUpTo(m: Table, ip: int, c: int): Option<Value>
    requires c <= 32
  {
    match Nearest(m, ip, c)
    case None => None
    case Some(c') => Some(m.vals[Key(Prefix(ip, c'), c')])
  }

  /** Longest-prefix match over the table, the answer the built table is meant to give for ip. */
  function Lpm(m: Table, ip: int): Option<Value> {
    LpmUpTo(m, ip, 32)
  }

  /** The nearest shorter prefix of k with a truthy entry holds k's own value (src/build.mjs:85-94). */
  predicate Dup(m: Table, k: Key)
    requires k in m.vals && k.cidr <= 33
  {
    match Nearest(m, k.ip, k.cidr - 1)
    case None => false
    case Some(c) => m.vals[Key(Prefix(k.ip, c), c)] == m.vals[k]
  }

  /** Nearest sees a match at exactly c0 when nothing longer up to c matches. */
  lemma {:induction false} NearestAt(m: Table, ip: int, c: int, c0: int)
    requires 0 <= c0 <= c <= 32 && MatchAt(m, ip, c0)
    requires forall c' :: c0 < c' <= c ==> !MatchAt(m, ip, c')
    ensures Nearest(m, ip, c) == Some(c0)
    decreases c
  {
    if c > c0 {
      NearestAt(m, ip, c - 1, c0);
    }
  }

  /** Nothing matches from c down to 0. */
  lemma {:induction false} NearestNone(m: Table, ip: int, c: int)
    requires c <= 32
    requires forall c' :: 0 <= c' <= c ==> !MatchAt(m, ip, c')
    ensures Nearest(m, ip, c) == None
    decreases c + 1
  {
    if c >= 0 {
      NearestNone(m, ip, c - 1);
    }
  }

  /**
   * The state of the walk for key k once it has looked at the prefix
   * lengths from k.cidr - 1 down to cidr: `prefix` is k's /cidr prefix, a
   * key not yet marked has met no truthy prefix, and a marked one is a duplicate.
   */
  predicate Walked(m: Table, k: Key, cidr: int, prefix: int, isDup: bool)
    requires k in m.vals && k.cidr <= 33
  {
    && cidr <= k.cidr && (cidr < 0 ==> cidr == k.cidr)
    && prefix == (if 0 <= cidr < k.cidr then Prefix(k.ip, cidr) else k.ip)
    && (!isDup ==> forall c :: 0 <= cidr <= c < k.cidr ==> !MatchAt(m, k.ip, c))
    && (isDup ==> Dup(m, k))
  }

  /** One step of the walk: mark on an equal truthy prefix, decide on a different one, go on past a missing one. */
  lemma WalkStep(m: Table, k: Key, cidr: int, prefix: int, isDup: bool)
    requires k in m.vals && k.cidr <= 33 && Walked(m, k, cidr, prefix, isDup) && cidr > 0
    ensures Prefix(prefix, cidr - 1) == Prefix(k.ip, cidr - 1)
    ensures var at := Key(Prefix(k.ip, cidr - 1), cidr - 1);
      && (Truthy(m, at) && m.vals[at] == m.vals[k] ==> Walked(m, k, cidr - 1, at.ip, true))
      && (!Truthy(m, at) ==> Walked(m, k, cidr - 1, at.ip, isDup))
      && (Truthy(m, at) && m.vals[at] != m.vals[k] ==> (isDup <==> Dup(m, k)))
  {
    if cidr < k.cidr {
      PrefixOfPrefix(k.ip, cidr, cidr - 1);
    }
    var at := Key(Prefix(k.ip, cidr - 1), cidr - 1);
    if Truthy(m, at) && !isDup {
      NearestAt(m, k.ip, k.cidr - 1, cidr - 1);
    }
  }

  /** A walk that reached /0 unmarked met no truthy prefix at all. */
  lemma WalkDone(m: Table, k: Key, cidr: int, prefix: int, isDup: bool)
    requires k in m.vals && k.cidr <= 33 && Walked(m, k, cidr, prefix, isDup) && cidr <= 0
    ensures isDup <==> Dup(m, k)
  {
    if !isDup {
      NearestNone(m, k.ip, k.cidr - 1);
    }
  }

  /**
   * The walk of src/build.mjs:85-94 for one key: from cidr - 1 down to 0 it
   * looks at each shorter prefix, marks the key a duplicate when that prefix
   * holds the same truthy value, and stops at the first one holding a
   * different truthy value. Prefix lengths above /33 leave the prefix arithmetic.
   */
  method IsDup(m: Table, k: Key) returns (r: Result<bool>)
    requires k in m.vals
    ensures r.Err? <==> k.cidr > 33
    ensures r.Ok? ==> (r.value <==> Dup(m, k))
  {
    if k.cidr > 33 {
      return Err(OutsideModel);
    }
    var prefix := k.ip;
    var cidr := k.cidr;
    var isDup := false;
    while cidr > 0
      invariant Walked(m, k, cidr, prefix, isDup)
      decreases cidr
    {
      WalkStep(m, k, cidr, prefix, isDup);
      cidr := cidr - 1;
      prefix := Prefix(prefix, cidr);
      var at := Key(prefix, cidr);
      if Truthy(m, at) && m.vals[at] == m.vals[k] {
        isDup := true;
      } else if Truthy(m, at) {
        return Ok(isDup);
      }
    }
    WalkDone(m, k, cidr, prefix, isDup);
    return Ok(isDup);
  }

  /** The first i keys in model range. */
  predicate InRange(m: Table, i: nat)
    requires i <= |m.keys|
  {
    forall j :: 0 <= j < i ==> m.keys[j].cidr <= 33
  }

  /** The first i keys the pass keeps, in order. */
  function KeptUpTo(m: Table, i: nat): (ks: seq<Key>)
    requires Listed(m) && i <= |m.keys| && InRange(m, i)
  {
    if i == 0 then []
    else
      KeyIn(m, i - 1);
      KeptUpTo(m, i - 1) + if Dup(m, m.keys[i - 1]) then [] else [m.keys[i - 1]]
  }

  /** A key is kept exactly when it is one of the first i and is no duplicate. */
  lemma {:induction false} KeptMembers(m: Table, i: nat)
    requires Listed(m) && i <= |m.keys| && InRange(m, i)
    ensures forall k :: k in KeptUpTo(m, i) <==> k in m.keys[..i] && k in m.vals && k.cidr <= 33 && !Dup(m, k)
  {
    if i > 0 {
      KeptMembers(m, i - 1);
      KeyIn(m, i - 1);
      assert m.keys[..i] == m.keys[..i - 1] + [m.keys[i - 1]];
    }
  }

  /** The loop invariant of Dedupe after i keys. */
  predicate DedupedUpTo(m: Table, out: Table, i: nat)
    requires Listed(m) && i <= |m.keys|
  {
    && InRange(m, i)
    && Valid(out)
    && out.keys == KeptUpTo(m, i)
    && forall k :: k in out.vals ==> k in m.vals && out.vals[k] == m.vals[k]
  }

  /** A key of a valid table does not occur earlier in its key list. */
  lemma NotEarlier(m: Table, i: nat)
    requires Valid(m) && i < |m.keys|
    ensures m.keys[i] !in m.keys[..i]
  {
  }

  /** Kept keys come from the first i. */
  lemma {:induction false} KeptEarlier(m: Table, i: nat)
    requires Listed(m) && i <= |m.keys| && InRange(m, i)
    ensures forall x :: x in KeptUpTo(m, i) ==> x in m.keys[..i]
  {
    if i > 0 {
      KeptEarlier(m, i - 1);
      assert m.keys[..i] == m.keys[..i - 1] + [m.keys[i - 1]];
    }
  }

  /** Dedupe's loop body keeps its invariant, for a duplicate ... */
  lemma DedupeSkip(m: Table, out: Table, i: nat)
    requires Listed(m) && i < |m.keys| && DedupedUpTo(m, out, i) && m.keys[i].cidr <= 33
    requires m.keys[i] in m.vals && Dup(m, m.keys[i])
    ensures DedupedUpTo(m, out, i + 1)
  {
  }

  /** ... and for a key it keeps. */
  lemma DedupeKeep(m: Table, out: Table, i: nat)
    requires Listed(m) && i < |m.keys| && DedupedUpTo(m, out, i) && m.keys[i].cidr <= 33
    requires m.keys[i] !in m.keys[..i]
    requires m.keys[i] in m.vals && !Dup(m, m.keys[i])
    ensures DedupedUpTo(m, Put(out, m.keys[i], m.vals[m.keys[i]]), i + 1)
  {
    var k := m.keys[i];
    KeptEarlier(m, i);
    assert k !in out.vals by {
      assert out.vals.Keys == KeySet(out.keys);
    }
  }

  /**
   * `dedupeIP2CountryMap`: a fresh table holding, in the input's order,
   * exactly the entries that are no duplicates, with their values.
   */
  method DedupeMap(m: Table) returns (r: Result<Table>)
    requires Valid(m)
    ensures r.Err? <==> exists j :: 0 <= j < |m.keys| && m.keys[j].cidr > 33
    ensures r.Ok? ==> Valid(r.value) && r.value.keys == KeptUpTo(m, |m.keys|)
    ensures r.Ok? ==> DedupedFrom(m, r.value)
    ensures r.Ok? ==> forall ip :: Lpm(r.value, ip) == Lpm(m, ip)
  {
    var out: Table := EmptyMap();
    var i := 0;
    while i < |m.keys|
      invariant i <= |m.keys| && DedupedUpTo(m, out, i)
    {
      var k := m.keys[i];
      KeyIn(m, i);
      var d := IsDup(m, k);
      if d.Err? {
        return Err(d.error);
      }
      if d.value {
        DedupeSkip(m, out, i);
      } else {
        NotEarlier(m, i);
        DedupeKeep(m, out, i);
        out := Put(out, k, m.vals[k]);
      }
      i := i + 1;
    }
    DedupedFacts(m, out);
    DedupeKeepsLookups(m, out);
    return Ok(out);
  }

  /**
   * What Dedupe leaves: a valid sub-table of the input, keys in input
   * order, holding a key exactly when it is no duplicate.
   */
  lemma DedupedFacts(m: Table, out: Table)
    requires Valid(m) && DedupedUpTo(m, out, |m.keys|)
    ensures DedupedFrom(m, out)
  {
    KeptMembers(m, |m.keys|);
    assert m.keys[..|m.keys|] == m.keys;
    forall k | k in m.vals ensures k in m.keys {
      assert k in KeySet(m.keys);
    }
    assert out.vals.Keys == KeySet(out.keys);
  }

  /** Below /c the walk from c's prefix of ip sees what the walk from ip sees. */
  lemma {:induction false} NearestShift(m: Table, ip: int, c: int, c1: int)
    requires 0 <= c <= 32 && c1 < c
    ensures Nearest(m, Prefix(ip, c), c1) == Nearest(m, ip, c1)
    decreases c1 + 1
  {
    if c1 >= 0 {
      PrefixOfPrefix(ip, c, c1);
      NearestShift(m, ip, c, c1 - 1);
    }
  }

  /** out is a sub-table of m holding exactly m's entries that are no duplicates. */
  ghost predicate DedupedFrom(m: Table, out: Table) {
    && (forall k :: k in out.vals <==> k in m.vals && k.cidr <= 33 && !Dup(m, k))
    && (forall k :: k in out.vals ==> out.vals[k] == m.vals[k])
  }

  /**
   * Dropping duplicates changes no longest-prefix match: for every address
   * and every bound c, the longest truthy block of length at most c holds
   * the same value in both tables (the claim of src/build.mjs:67-68).
   */
  lemma {:induction false} DedupeKeepsLpm(m: Table, out: Table, ip: int, c: int)
    requires DedupedFrom(m, out) && c <= 32
    ensures LpmUpTo(out, ip, c) == LpmUpTo(m, ip, c)
    decreases c + 1
  {
    if c >= 0 {
      DedupeKeepsLpm(m, out, ip, c - 1);
      var k := Key(Prefix(ip, c), c);
      if MatchAt(m, ip, c) && k !in out.vals {
        assert Dup(m, k);
        NearestShift(m, ip, c, c - 1);
        var p := Nearest(m, ip, c - 1).value;
        PrefixOfPrefix(ip, c, p);
      }
    }
  }

  /** The whole-address form: a lookup over the pruned table answers as over the input. */
  lemma DedupeKeepsLookups(m: Table, out: Table)
    requires DedupedFrom(m, out)
    ensures forall ip :: Lpm(out, ip) == Lpm(m, ip)
  {
    forall ip ensures Lpm(out, ip) == Lpm(m, ip) {
      DedupeKeepsLpm(m, out, ip, 32);
    }
  }
}
