/**
 * The RIB text-line parsers of src/historicBGPData.js: a header line teaches
 * the columns of "Network" and "Path"; each later line records one network's
 * origin AS under the key "<numeric address>/<cidr>".
 */
module RibParse {
  import opened Wrappers
  import opened JsObjects
  import opened JsText
  import opened Seqs

  /** `/(\d+) [ie]$/`: the digits right before a trailing " i" or " e", at least one. */
  function AsnOf(s: string): (r: Option<nat>)
  {
    if |s| >= 2 && s[|s| - 2] == ' ' && (s[|s| - 1] == 'i' || s[|s| - 1] == 'e') then
      var run := DigitRun(s[..|s| - 2]);
      if run == [] then None else Some(DigitsValue(run))
    else None
  }

  /** The longest run of digits that `p` ends with. */
  function DigitRun(p: string): (r: string)
    ensures |r| <= |p| && r == p[|p| - |r|..]
    ensures forall i :: 0 <= i < |r| ==> IsDigit(r[i])
    ensures |r| < |p| ==> !IsDigit(p[|p| - |r| - 1])
  {
    if p == [] || !IsDigit(p[|p| - 1]) then []
    else DigitRun(p[..|p| - 1]) + [p[|p| - 1]]
  }

  lemma {:induction false} DigitRunOf(pre: string, d: string)
    requires forall i :: 0 <= i < |d| ==> IsDigit(d[i])
    requires pre == [] || !IsDigit(pre[|pre| - 1])
    ensures DigitRun(pre + d) == d
  {
    if d == [] {
      assert pre + d == pre;
    } else {
      var n := |d| - 1;
      DropLast(pre, d);
      assert IsDigit(d[n]);
      DigitRunOf(pre, d[..n]);
      assert DigitRun(pre + d) == DigitRun(pre + d[..n]) + [d[n]];
    }
  }

  /** Line text matching the AS regex: anything not ending in a digit, digits, a space, then 'i' or 'e'. */
  predicate AsnShape(pre: string, d: string, c: char) {
    && (pre == [] || !IsDigit(pre[|pre| - 1]))
    && d != [] && (forall i :: 0 <= i < |d| ==> IsDigit(d[i]))
    && (c == 'i' || c == 'e')
  }

  /** What the regex finds has the shape above, and the AS is the decimal value of its digits. */
  lemma AsnOfSound(s: string)
    requires AsnOf(s).Some?
    ensures var k := |s| - 2 - |DigitRun(s[..|s| - 2])|;
      && s[|s| - 2] == ' ' && s == s[..k] + s[k..|s| - 2] + [' ', s[|s| - 1]]
      && AsnShape(s[..k], s[k..|s| - 2], s[|s| - 1])
      && AsnOf(s) == Some(DigitsValue(s[k..|s| - 2]))
  {
    var p := s[..|s| - 2];
    var run := DigitRun(p);
    var k := |s| - 2 - |run|;
    SliceParts(s, k);
    assert s[k..|s| - 2] == run;
    assert k > 0 ==> s[..k][k - 1] == p[k - 1];
  }

  lemma SliceParts(s: string, k: nat)
    requires k <= |s| - 2
    ensures s == s[..k] + s[k..|s| - 2] + [s[|s| - 2], s[|s| - 1]]
  {
  }

  /** Conversely, every text of that shape matches, with its digits' value. */
  lemma AsnOfShape(pre: string, d: string, c: char)
    requires AsnShape(pre, d, c)
    ensures AsnOf(pre + d + [' ', c]) == Some(DigitsValue(d))
  {
    var s := pre + d + [' ', c];
    assert s[..|s| - 2] == pre + d;
    DigitRunOf(pre, d);
  }

  /** `parseRIBHeader`'s effect on `offsets` (src/historicBGPData.js:37-46). */
  function HeaderOffsets(offsets: seq<int>, line: string): (r: seq<int>)
    requires |offsets| == 2
    ensures |r| == 2
  {
    var net := IndexOf(line, "Network", 0);
    var path := IndexOf(line, "Path", 0);
    if net > 0 && path > 0 then [net, path] else offsets
  }

  /** Columns not yet learned (both 0), or both learned at positive indexes. */
  predicate Paired(offsets: seq<int>) {
    |offsets| == 2 && ((offsets[0] == 0 && offsets[1] == 0) || (offsets[0] > 0 && offsets[1] > 0))
  }

  /**
   * A header updates the columns only when it names both "Network" and
   * "Path" after its first character, and then to their first occurrences.
   */
  lemma HeaderMeaning(offsets: seq<int>, line: string)
    requires |offsets| == 2
    ensures var r := HeaderOffsets(offsets, line);
      if IndexOf(line, "Network", 0) > 0 && IndexOf(line, "Path", 0) > 0 then
        && r[0] > 0 && At(line, "Network", r[0]) && (forall j :: 0 <= j < r[0] ==> !At(line, "Network", j))
        && r[1] > 0 && At(line, "Path", r[1]) && (forall j :: 0 <= j < r[1] ==> !At(line, "Path", j))
      else r == offsets
    ensures Paired(offsets) ==> Paired(HeaderOffsets(offsets, line))
  {
  }

  /** The state a route line leaves: the `seen` set, the `map` object, and whether it threw. */
  datatype Step = Step(seen: set<string>, routes: JsMap<string, int>, status: Result<()>)

  /** `networkSlash`: the first '/' at or after the Network column. */
  function Slash(line: string, net: int): int {
    IndexOf(line, "/", net)
  }

  /** `networkEnd`: the first space at or after the slash. */
  function NetworkEnd(line: string, net: int): int {
    IndexOf(line, " ", Slash(line, net))
  }

  /** The network text "a.b.c.d/len" the line is deduplicated on. */
  function NetworkText(line: string, net: int): string {
    Substring(line, net, NetworkEnd(line, net))
  }

  /** The dot-separated parts of the address before the slash. */
  function AddressParts(line: string, net: int): seq<string> {
    Split(Substr(NetworkText(line, net), 0, Slash(line, net) - net), '.')
  }

  /** The key recorded for the line: the numeric address followed by "/len". */
  function RouteKey(line: string, net: int, addr: nat): string {
    Decimal(addr) + Substring(line, Slash(line, net), NetworkEnd(line, net))
  }

  /** `parseRIBLine` (src/historicBGPData.js:14-35) on columns `net` and `path`. */
  function RibLine(net: int, path: int, seen: set<string>, routes: JsMap<string, int>, line: string,
                   toOctet: string -> Octet): Step
  {
    if NetworkEnd(line, net) < 0 then Step(seen, routes, Ok(()))
    else if NetworkText(line, net) in seen then Step(seen, routes, Ok(()))
    else
      var seen' := seen + {NetworkText(line, net)};
      var parts := AddressParts(line, net);
      if |parts| < 4 then Step(seen', routes, Err(RangeError))
      else
        var addr := ReadUInt32BE(toOctet(parts[0]), toOctet(parts[1]), toOctet(parts[2]), toOctet(parts[3]));
        var asn := AsnOf(Substr(line, path, |line|));
        if asn.None? then Step(seen', routes, Ok(()))
        else Step(seen', Put(routes, RouteKey(line, net, addr), asn.value), Ok(()))
  }

  /** A line with no space after the slash that follows the Network column changes nothing. */
  lemma LineWithoutEnd(net: int, path: int, seen: set<string>, routes: JsMap<string, int>, line: string,
                       toOctet: string -> Octet)
    requires forall j :: Clamp(Slash(line, net), |line|) <= j <= |line| ==> !At(line, " ", j)
    ensures RibLine(net, path, seen, routes, line, toOctet) == Step(seen, routes, Ok(()))
  {
  }

  /** A network text already seen changes nothing: the first line for a network wins. */
  lemma LineAlreadySeen(net: int, path: int, seen: set<string>, routes: JsMap<string, int>, line: string,
                        toOctet: string -> Octet)
    requires NetworkText(line, net) in seen
    ensures RibLine(net, path, seen, routes, line, toOctet) == Step(seen, routes, Ok(()))
  {
  }

  /**
   * A new network text is marked seen whatever follows (no AS, or a short
   * address that throws), and at most the one key of this line is written.
   */
  lemma LineMarksSeen(net: int, path: int, seen: set<string>, routes: JsMap<string, int>, line: string,
                      toOctet: string -> Octet)
    requires NetworkEnd(line, net) >= 0 && NetworkText(line, net) !in seen
    ensures var r := RibLine(net, path, seen, routes, line, toOctet);
      && r.seen == seen + {NetworkText(line, net)}
      && (r.status == Err(RangeError) <==> |AddressParts(line, net)| < 4)
      && (r.routes == routes || exists key, v :: r.routes == Put(routes, key, v))
  {
  }

  /**
   * A recorded entry: the key is the numeric address of the four parts
   * followed by the "/len" text, and the value is the AS the path column ends with.
   */
  lemma LineRecords(net: int, path: int, seen: set<string>, routes: JsMap<string, int>, line: string,
                    toOctet: string -> Octet)
    requires NetworkEnd(line, net) >= 0 && NetworkText(line, net) !in seen
    requires |AddressParts(line, net)| >= 4 && AsnOf(Substr(line, path, |line|)).Some?
    ensures var parts := AddressParts(line, net);
      var addr := ReadUInt32BE(toOctet(parts[0]), toOctet(parts[1]), toOctet(parts[2]), toOctet(parts[3]));
      var key := RouteKey(line, net, addr);
      var r := RibLine(net, path, seen, routes, line, toOctet);
      && r.routes.vals == routes.vals[key := AsnOf(Substr(line, path, |line|)).value]
      && (Valid(routes) ==> Valid(r.routes))
      && DigitsValue(Decimal(addr)) == addr
      && r.status == Ok(())
  {
    var parts := AddressParts(line, net);
    DecimalRoundTrip(ReadUInt32BE(toOctet(parts[0]), toOctet(parts[1]), toOctet(parts[2]), toOctet(parts[3])));
  }

  /** The three objects `parseASLine` is bound to: `conf` (the columns), `seen` and `map`. */
  class RibParser {
    var offsets: array<int>
    var seen: set<string>
    var routes: JsMap<string, int>

    ghost predicate Valid()
      reads this, offsets
    {
      offsets.Length == 2 && Paired(offsets[..]) && JsObjects.Valid(routes)
    }

    /** `conf = [0, 0], seen = {}, map = {}` (src/historicBGPData.js:101). */
    constructor ()
      ensures Valid() && fresh(offsets)
      ensures offsets[..] == [0, 0] && seen == {} && routes == JsMap([], map[])
    {
      offsets := new int[2](_ => 0);
      seen := {};
      routes := JsMap([], map[]);
      new;
      assert offsets[..] == [0, 0];
    }

    /** `parseRIBHeader`: learns the columns from a header line. */
    method ParseRibHeader(line: string)
      requires Valid()
      modifies offsets
      ensures Valid()
      ensures offsets[..] == HeaderOffsets(old(offsets[..]), line)
    {
      var net := IndexOf(line, "Network", 0);
      var path := IndexOf(line, "Path", 0);
      if net > 0 && path > 0 {
        offsets[0] := net;
        offsets[1] := path;
        assert offsets[..] == [net, path];
      }
      HeaderMeaning(old(offsets[..]), line);
    }

    /** `parseRIBLine`: records one route line; a short address throws a RangeError after marking it seen. */
    method ParseRibLine(line: string, toOctet: string -> Octet) returns (r: Result<()>)
      requires Valid()
      modifies this
      ensures Valid() && offsets == old(offsets)
      ensures Step(seen, routes, r) == RibLine(offsets[0], offsets[1], old(seen), old(routes), line, toOctet)
    {
      var net, path := offsets[0], offsets[1];
      var networkSlash := IndexOf(line, "/", net);
      var networkEnd := IndexOf(line, " ", networkSlash);
      if networkEnd < 0 {
        return Ok(());
      }
      var network := Substring(line, net, networkEnd);
      assert network == NetworkText(line, net) && networkSlash == Slash(line, net);
      if network in seen {
        return Ok(());
      }
      var parts := Split(Substr(network, 0, networkSlash - net), '.');
      assert parts == AddressParts(line, net);
      seen := seen + {network};
      if |parts| < 4 {
        return Err(RangeError);
      }
      var addr := ReadUInt32BE(toOctet(parts[0]), toOctet(parts[1]), toOctet(parts[2]), toOctet(parts[3]));
      var asn := AsnOf(Substr(line, path, |line|));
      if asn.Some? {
        routes := Put(routes, Decimal(addr) + Substring(line, networkSlash, networkEnd), asn.value);
      }
      return Ok(());
    }

    /** `parseASLine`: a header while the Network column is still 0, a route line afterwards. */
    method ParseAsLine(line: string, toOctet: string -> Octet) returns (r: Result<()>)
      requires Valid()
      modifies this, offsets
      ensures Valid() && offsets == old(offsets)
      ensures old(offsets[0]) == 0 ==>
        offsets[..] == HeaderOffsets(old(offsets[..]), line) && seen == old(seen) && routes == old(routes) && r == Ok(())
      ensures old(offsets[0]) != 0 ==>
        offsets[..] == old(offsets[..])
        && Step(seen, routes, r) == RibLine(offsets[0], offsets[1], old(seen), old(routes), line, toOctet)
    {
      if offsets[0] == 0 {
        ParseRibHeader(line);
        r := Ok(());
      } else {
        r := ParseRibLine(line, toOctet);
      }
    }
  }
}
