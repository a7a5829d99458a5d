/**
 * The JavaScript string and Buffer operations the parsers use: `split`,
 * `indexOf`, `substring`, `substr`, decimal conversion, the truncating `%`
 * and big-endian 32-bit reads.
 */
module JsText {
  import opened Wrappers
  import opened PrefixMath

  /** One byte of a `Buffer`. */
  type Octet = x: int | 0 <= x < 256

  /** `s.split(sep)`: the pieces between separators, `[""]` for the empty string. */
  function Split(s: string, sep: char): (r: seq<string>)
    ensures |r| >= 1
  {
    if s == [] then [[]]
    else
      var rest := Split(s[1..], sep);
      if s[0] == sep then [[]] + rest
      else [[s[0]] + rest[0]] + rest[1..]
  }

  /** JavaScript `a % b` for b > 0: the remainder takes the sign of a (truncating division). */
  function JsRem(a: int, b: int): (r: int)
    requires b > 0
    ensures a >= 0 ==> r == a % b
    ensures a < 0 ==> -b < r <= 0
  {
    if a >= 0 then a % b else -((-a) % b)
  }

  /** `parts.join(sep)`: the parts with one separator between neighbours. */
  function Join(parts: seq<string>, sep: char): string
    requires |parts| >= 1
  {
    if |parts| == 1 then parts[0] else parts[0] + [sep] + Join(parts[1..], sep)
  }

  lemma {:induction false} SplitOnto(p: string, t: string, sep: char)
    requires sep !in p
    ensures Split(p + t, sep) == [p + Split(t, sep)[0]] + Split(t, sep)[1..]
  {
    if p != [] {
      assert (p + t)[0] == p[0] && (p + t)[1..] == p[1..] + t;
      SplitOnto(p[1..], t, sep);
      assert [p[0]] + (p[1..] + Split(t, sep)[0]) == p + Split(t, sep)[0];
    } else {
      assert p + t == t;
      assert p + Split(t, sep)[0] == Split(t, sep)[0];
      assert Split(t, sep) == [Split(t, sep)[0]] + Split(t, sep)[1..];
    }
  }

  /** Splitting undoes joining parts that hold no separator. */
  lemma {:induction false} SplitJoin(parts: seq<string>, sep: char)
    requires |parts| >= 1
    requires forall i :: 0 <= i < |parts| ==> sep !in parts[i]
    ensures Split(Join(parts, sep), sep) == parts
  {
    if |parts| == 1 {
      SplitOnto(parts[0], [], sep);
      assert parts[0] + [] == parts[0];
      assert Split([], sep) == [[]];
    } else {
      var rest := Join(parts[1..], sep);
      assert forall i :: 0 <= i < |parts[1..]| ==> sep !in parts[1..][i] by {
        forall i | 0 <= i < |parts[1..]| ensures sep !in parts[1..][i] {
          assert parts[1..][i] == parts[i + 1];
        }
      }
      SplitJoin(parts[1..], sep);
      assert parts[0] + [sep] + rest == parts[0] + ([sep] + rest);
      SplitOnto(parts[0], [sep] + rest, sep);
      assert ([sep] + rest)[0] == sep && ([sep] + rest)[1..] == rest;
      var tail := Split([sep] + rest, sep);
      assert tail == [[]] + parts[1..];
      assert tail[0] == [] && tail[1..] == parts[1..];
      assert parts[0] + tail[0] == parts[0];
      assert [parts[0]] + parts[1..] == parts;
    }
  }

  /** The unsigned big-endian value of four bytes. */
  function ReadUInt32BE(b0: Octet, b1: Octet, b2: Octet, b3: Octet): (r: int)
    ensures 0 <= r < TWO32
  {
    b0 * 0x100_0000 + b1 * 0x1_0000 + b2 * 0x100 + b3
  }

  /** `buffer.readInt32BE(0)`: the same four bytes read as a signed 32-bit integer. */
  function ReadInt32BE(b0: Octet, b1: Octet, b2: Octet, b3: Octet): (r: int)
    ensures -TWO31 <= r < TWO31
    ensures r == ReadUInt32BE(b0, b1, b2, b3) || r == ReadUInt32BE(b0, b1, b2, b3) - TWO32
    ensures r < 0 <==> b0 >= 128
  {
    var u := ReadUInt32BE(b0, b1, b2, b3);
    if u >= TWO31 then u - TWO32 else u
  }

  /** A search position clamped into 0..n, as `indexOf` and `substring` clamp theirs. */
  function Clamp(i: int, n: nat): (r: nat)
    ensures r <= n
    ensures 0 <= i <= n ==> r == i
  {
    if i < 0 then 0 else if i > n then n else i
  }

  /** `t` occurs in `s` at index i. */
  predicate At(s: string, t: string, i: nat) {
    i + |t| <= |s| && s[i..i + |t|] == t
  }

  function IndexFrom(s: string, t: string, i: nat): (r: int)
    requires i <= |s|
    decreases |s| - i
    ensures r == -1 || (i <= r && At(s, t, r))
    ensures r >= 0 ==> forall j :: i <= j < r ==> !At(s, t, j)
    ensures r == -1 ==> forall j :: i <= j <= |s| ==> !At(s, t, j)
  {
    if i + |t| > |s| then -1
    else if At(s, t, i) then i
    else if i == |s| then -1
    else IndexFrom(s, t, i + 1)
  }

  /** `s.indexOf(t, from)`: the first occurrence of t at or after the clamped start, or -1. */
  function IndexOf(s: string, t: string, from: int): (r: int)
    ensures r == -1 || (Clamp(from, |s|) <= r && At(s, t, r))
    ensures r >= 0 ==> forall j :: Clamp(from, |s|) <= j < r ==> !At(s, t, j)
    ensures r == -1 ==> forall j :: Clamp(from, |s|) <= j <= |s| ==> !At(s, t, j)
  {
    IndexFrom(s, t, Clamp(from, |s|))
  }

  /** `s.substring(a, b)`: both ends clamped into the string, swapped when a > b. */
  function Substring(s: string, a: int, b: int): string {
    var lo := Clamp(a, |s|);
    var hi := Clamp(b, |s|);
    if lo <= hi then s[lo..hi] else s[hi..lo]
  }

  /** `s.substr(start, len)`: a negative start counts from the end; the length is cut to what is left. */
  function Substr(s: string, start: int, len: int): (r: string)
    ensures 0 <= start <= |s| && 0 <= len <= |s| - start ==> r == s[start..start + len]
    ensures len <= 0 ==> r == []
    ensures 0 <= start && start + len >= |s| ==> r == s[Clamp(start, |s|)..]
  {
    var st := if start < 0 then Clamp(|s| + start, |s|) else Clamp(start, |s|);
    var l := if len < 0 then 0 else if len > |s| - st then |s| - st else len;
    s[st..st + l]
  }

  predicate IsDigit(c: char) {
    '0' <= c <= '9'
  }

  function DigitValue(c: char): nat
    requires IsDigit(c)
  {
    (c as int) - ('0' as int)
  }

  function DigitChar(d: nat): (c: char)
    requires d < 10
    ensures IsDigit(c) && DigitValue(c) == d
  {
    (('0' as int) + d) as char
  }

  /** `parseInt(ds, 10)` of a string of decimal digits. */
  function DigitsValue(ds: string): nat
    requires forall i :: 0 <= i < |ds| ==> IsDigit(ds[i])
  {
    if ds == [] then 0 else DigitsValue(ds[..|ds| - 1]) * 10 + DigitValue(ds[|ds| - 1])
  }

  /** `String(n)`: the decimal digits of n, without leading zeros. */
  function Decimal(n: nat): (r: string)
    ensures |r| >= 1 && forall i :: 0 <= i < |r| ==> IsDigit(r[i])
    ensures n > 0 ==> r[0] != '0'
  {
    if n < 10 then [DigitChar(n)] else Decimal(n / 10) + [DigitChar(n % 10)]
  }

  /** Reading the decimal digits of n back gives n. */
  lemma {:induction false} DecimalRoundTrip(n: nat)
    ensures DigitsValue(Decimal(n)) == n
  {
    if n >= 10 {
      DecimalRoundTrip(n / 10);
      var ds := Decimal(n);
      assert ds[..|ds| - 1] == Decimal(n / 10);
    }
  }
}
