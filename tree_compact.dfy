/**
 * The compaction passes of src/tree.js that rebuild a node's children:
 * `dedup` and `findRearrangements`.
 */
module TreeCompact {
  import opened Wrappers
  import opened Arith
  import opened PrefixMath
  import opened TreeNodes
  import opened TreeFacts
  import opened JsObjects
  import opened TreeSearch
  import opened TreeSpan
  import opened Seqs

  /**
   * An element of a `children` array after `dedup`: a node, the array of a
   * node's children spliced in as a single element, or `undefined`.
   */
  datatype Slot = Child(node: Node) | Spliced(nodes: seq<Node>) | Missing

  /** What `dedup` leaves in place of child c of a node with value v. */
  function SlotOf(v: Option<Value>, c: Node): Slot {
    if c.value == v then Spliced(c.children) else Child(c)
  }

  /** The visits left at an index: a node may become an array, an array `undefined`. */
  function Rank(slots: seq<Slot>, i: int): nat {
    if 0 <= i < |slots| then (match slots[i] case Child(_) => 2 case Spliced(_) => 1 case Missing => 0) else 0
  }

  /**
   * `dedup` (src/tree.js:223-233). Each child with the node's value is
   * replaced by its own children array as ONE element, so nothing is
   * flattened and the number of elements stays the same. The index is then
   * revisited: an array's value is `undefined`, so under a node whose value
   * is `undefined` it is replaced by `undefined`, and reading the value of
   * that throws.
   */
  method Dedup(n: Node) returns (r: Result<seq<Slot>>)
    ensures (n.value.Some? || forall i :: 0 <= i < |n.children| ==> n.children[i].value.Some?) ==>
      r.Ok? && |r.value| == |n.children| &&
      forall i :: 0 <= i < |n.children| ==> r.value[i] == SlotOf(n.value, n.children[i])
    ensures (n.value.None? && exists i :: 0 <= i < |n.children| && n.children[i].value.None?) ==>
      r == Err(TypeError)
  {
    var cs, v := n.children, n.value;
    var slots := seq(|cs|, j requires 0 <= j < |cs| => Child(cs[j]));
    var i := 0;
    while i < |slots|
      invariant 0 <= i <= |slots| == |cs|
      invariant forall j :: 0 <= j < i ==> slots[j] == SlotOf(v, cs[j])
      invariant forall j :: i < j < |cs| ==> slots[j] == Child(cs[j])
      invariant i < |cs| ==>
        (|| slots[i] == Child(cs[i])
         || (slots[i] == Spliced(cs[i].children) && cs[i].value == v)
         || (slots[i] == Missing && v.None? && cs[i].value.None?))
      invariant v.None? ==> forall j :: 0 <= j < i ==> cs[j].value.Some?
      decreases |slots| - i, Rank(slots, i)
    {
      match slots[i]
      case Missing =>
        return Err(TypeError);
      case Child(c) =>
        if c.value == v {
          slots := slots[i := Spliced(c.children)];
        } else {
          i := i + 1;
        }
      case Spliced(_) =>
        if v.None? {
          slots := slots[i := Missing];
        } else {
          i := i + 1;
        }
    }
    return Ok(slots);
  }

  /** The nodes of slots that are all nodes. */
  function Nodes(slots: seq<Slot>): (r: seq<Node>)
    requires forall i :: 0 <= i < |slots| ==> slots[i].Child?
    ensures |r| == |slots| && forall i :: 0 <= i < |slots| ==> r[i] == slots[i].node
  {
    seq(|slots|, i requires 0 <= i < |slots| => slots[i].node)
  }

  /**
   * `treeSize` (src/tree.js:404-414) of a node whose children are `slots`:
   * an array or `undefined` among them has no `children`, which throws.
   */
  method SlotsSize(slots: seq<Slot>) returns (r: Result<nat>)
    ensures r.Ok? <==> forall i :: 0 <= i < |slots| ==> slots[i].Child?
    ensures r.Ok? ==> r.value == 1 + SizeSeq(Nodes(slots))
  {
    var sum := 1;
    var i := 0;
    while i < |slots|
      invariant i <= |slots|
      invariant forall j :: 0 <= j < i ==> slots[j].Child?
      invariant sum == 1 + SizeSeq(Nodes(slots[..i]))
    {
      if !slots[i].Child? {
        return Err(TypeError);
      }
      var s := TreeSize(slots[i].node);
      assert Nodes(slots[..i + 1]) == Nodes(slots[..i]) + [slots[i].node];
      SizeSeqAppendOne(Nodes(slots[..i]), slots[i].node);
      sum := sum + s;
      i := i + 1;
    }
    assert slots[..i] == slots;
    return Ok(sum);
  }

  lemma SizeSeqAppendOne(a: seq<Node>, x: Node)
    ensures SizeSeq(a + [x]) == SizeSeq(a) + Size(x)
  {
    SizeSeqAppend(a, [x]);
    assert [x][1..] == [];
  }

  /** The property name a value gets as a key of `vcounts`: `undefined` is spelt out. */
  function ValueKey(v: Option<Value>): string {
    match v
    case None => "undefined"
    case Some(s) => s
  }

  /** How many of cs have a value whose key is k. */
  function Count(cs: seq<Node>, k: string): nat
    decreases |cs|
  {
    if cs == [] then 0
    else Count(cs[..|cs| - 1], k) + if ValueKey(cs[|cs| - 1].value) == k then 1 else 0
  }

  /** A key is counted at least once exactly when some child's value has that key. */
  lemma {:induction false} CountPositive(cs: seq<Node>, k: string)
    decreases |cs|
    ensures Count(cs, k) > 0 <==> exists j :: 0 <= j < |cs| && ValueKey(cs[j].value) == k
  {
    if cs != [] {
      var init := cs[..|cs| - 1];
      CountPositive(init, k);
      assert forall j :: 0 <= j < |init| ==> init[j] == cs[j];
    }
  }

  /** Counting one more child adds one to its value's key only. */
  lemma CountSnoc(cs: seq<Node>, i: int)
    requires 0 <= i < |cs|
    ensures forall k :: Count(cs[..i + 1], k) == Count(cs[..i], k) + if ValueKey(cs[i].value) == k then 1 else 0
  {
    assert cs[..i + 1][..i] == cs[..i];
  }

  /**
   * The counting loop of `findRearrangements` (src/tree.js:342-347). Setting
   * a missing or zero count to 0 before adding one changes nothing but the
   * key order, which the single write below reproduces.
   */
  method CountValues(cs: seq<Node>) returns (vc: JsMap<string, nat>)
    ensures Valid(vc)
    ensures forall k :: k in vc.vals <==> exists j :: 0 <= j < |cs| && ValueKey(cs[j].value) == k
    ensures forall k :: k in vc.vals ==> vc.vals[k] == Count(cs, k) && vc.vals[k] > 0
  {
    vc := EmptyMap();
    var i := 0;
    while i < |cs|
      invariant i <= |cs|
      invariant Valid(vc)
      invariant Counted(cs, i, vc)
    {
      var k := ValueKey(cs[i].value);
      var c := Get(vc, k);
      var n := if c.None? then 0 else c.value;
      CountStep(cs, i, vc);
      vc := Put(vc, k, n + 1);
      i := i + 1;
    }
    CountedAll(cs, vc);
  }

  /** Counts of all the children: a key is present exactly when some child has that value. */
  lemma CountedAll(cs: seq<Node>, vc: JsMap<string, nat>)
    requires Counted(cs, |cs|, vc)
    ensures forall k :: k in vc.vals <==> exists j :: 0 <= j < |cs| && ValueKey(cs[j].value) == k
    ensures forall k :: k in vc.vals ==> vc.vals[k] == Count(cs, k) && vc.vals[k] > 0
  {
    assert cs[..|cs|] == cs;
    forall k
      ensures k in vc.vals <==> exists j :: 0 <= j < |cs| && ValueKey(cs[j].value) == k
    {
      CountPositive(cs, k);
    }
  }

  /** `vc` holds the counts of the first i children. */
  ghost predicate Counted(cs: seq<Node>, i: int, vc: JsMap<string, nat>)
    requires 0 <= i <= |cs|
  {
    && (forall k :: k in vc.vals <==> Count(cs[..i], k) > 0)
    && (forall k :: k in vc.vals ==> vc.vals[k] == Count(cs[..i], k))
  }

  /** One step of the counting loop. */
  lemma CountStep(cs: seq<Node>, i: int, vc: JsMap<string, nat>)
    requires 0 <= i < |cs| && Counted(cs, i, vc)
    ensures var k := ValueKey(cs[i].value);
      Counted(cs, i + 1, Put(vc, k, (if k in vc.vals then vc.vals[k] else 0) + 1))
  {
    CountSnoc(cs, i);
  }

  /**
   * The maximum loop of `findRearrangements` (src/tree.js:349-355): the first
   * key, in key order, whose count is greatest; none when no count is positive.
   */
  method MaxKey(vc: JsMap<string, nat>) returns (r: Option<string>)
    requires Valid(vc)
    ensures r.None? <==> forall k :: k in vc.vals ==> vc.vals[k] == 0
    ensures r.Some? ==> r.value in vc.vals && forall k :: k in vc.vals ==> vc.vals[k] <= vc.vals[r.value]
    ensures r.Some? ==> exists i :: (0 <= i < |vc.keys| && vc.keys[i] == r.value &&
      forall j :: 0 <= j < i ==> vc.vals[vc.keys[j]] < vc.vals[r.value])
  {
    var maxCount: nat := 0;
    r := None;
    var i := 0;
    ghost var at := 0;
    KeysListed(vc);
    while i < |vc.keys|
      invariant i <= |vc.keys|
      invariant r.None? ==> maxCount == 0 && forall j :: 0 <= j < i ==> vc.vals[vc.keys[j]] == 0
      invariant r.Some? ==> 0 <= at < i && vc.keys[at] == r.value && vc.vals[r.value] == maxCount > 0
      invariant r.Some? ==> forall j :: 0 <= j < at ==> vc.vals[vc.keys[j]] < maxCount
      invariant forall j :: 0 <= j < i ==> vc.vals[vc.keys[j]] <= maxCount
    {
      var c := vc.vals[vc.keys[i]];
      if c > maxCount {
        maxCount := c;
        r := Some(vc.keys[i]);
        at := i;
      }
      i := i + 1;
    }
    MaxKeyDone(vc, r, maxCount, at);
  }

  /** Every listed key of a valid object is stored. */
  lemma KeysListed(vc: JsMap<string, nat>)
    requires Valid(vc)
    ensures forall i :: 0 <= i < |vc.keys| ==> vc.keys[i] in vc.vals
  {
    forall i | 0 <= i < |vc.keys| ensures vc.keys[i] in vc.vals {
      assert vc.keys[i] in KeySet(vc.keys);
    }
  }

  /** After the whole key list, the maximum loop's state is the first key of greatest count. */
  lemma MaxKeyDone(vc: JsMap<string, nat>, r: Option<string>, m: nat, at: int)
    requires Valid(vc)
    requires r.None? ==> m == 0 && forall j :: 0 <= j < |vc.keys| ==> vc.vals[vc.keys[j]] == 0
    requires r.Some? ==> 0 <= at < |vc.keys| && vc.keys[at] == r.value && vc.vals[r.value] == m > 0
    requires r.Some? ==> forall j :: 0 <= j < at ==> vc.vals[vc.keys[j]] < m
    requires forall j :: 0 <= j < |vc.keys| ==> vc.vals[vc.keys[j]] <= m
    ensures r.None? <==> forall k :: k in vc.vals ==> vc.vals[k] == 0
    ensures r.Some? ==> r.value in vc.vals && forall k :: k in vc.vals ==> vc.vals[k] <= vc.vals[r.value]
    ensures r.Some? ==> exists i :: (0 <= i < |vc.keys| && vc.keys[i] == r.value &&
      forall j :: 0 <= j < i ==> vc.vals[vc.keys[j]] < vc.vals[r.value])
  {
    forall k | k in vc.vals ensures vc.vals[k] <= m && (r.None? ==> vc.vals[k] == 0) {
      assert k in KeySet(vc.keys);
    }
    if r.Some? {
      assert 0 <= at < |vc.keys| && vc.keys[at] == r.value;
    }
  }

  /**
   * The children a candidate covers, in order, with their positions (the
   * children are distinct objects, so `indexOf` finds exactly these).
   */
  method Covered(cs: seq<Node>, k: Key) returns (cc: seq<Node>, idx: seq<int>)
    ensures |cc| == |idx|
    ensures forall t :: 0 <= t < |idx| ==> 0 <= idx[t] < |cs| && cc[t] == cs[idx[t]]
    ensures forall t, u :: 0 <= t < u < |idx| ==> idx[t] < idx[u]
    ensures forall j :: 0 <= j < |cs| ==> (Contains(k, cs[j].Block()) <==> j in idx)
  {
    cc, idx := [], [];
    var i := 0;
    while i < |cs|
      invariant i <= |cs| && |cc| == |idx|
      invariant forall t :: 0 <= t < |idx| ==> 0 <= idx[t] < i && cc[t] == cs[idx[t]]
      invariant forall t, u :: 0 <= t < u < |idx| ==> idx[t] < idx[u]
      invariant forall j :: 0 <= j < i ==> (Contains(k, cs[j].Block()) <==> j in idx)
    {
      if Contains(k, cs[i].Block()) {
        cc, idx := cc + [cs[i]], idx + [i];
      }
      i := i + 1;
    }
  }

  /** The child a gap of the fill starts after: `beforeNode` of the parent for the first gap. */
  function GapFrom(node: Node, cc: seq<Node>, i: nat): Node
    requires i <= |cc|
  {
    if i == 0 then BeforeNode(node) else cc[i - 1]
  }

  /** The child a gap of the fill ends at: `afterNode` of the parent for the last gap. */
  function GapUpto(node: Node, cc: seq<Node>, i: nat): Node
    requires i <= |cc|
  {
    if i < |cc| then cc[i] else AfterNode(node)
  }

  /**
   * Gap i holds keyless leaves with the parent's value, and where `createSpan`
   * stays in exact arithmetic it is the greedy fill between its two ends.
   */
  ghost predicate GapFilled(node: Node, cc: seq<Node>, i: nat, g: seq<Node>)
    requires i <= |cc|
  {
    && (forall x :: x in g ==> x.key == None && x.value == node.value && x.children == [])
    && (FillFrom(GapFrom(node, cc, i).Block(), GapUpto(node, cc, i).ip) ==>
          IsFill(End(GapFrom(node, cc, i).Block()), GapUpto(node, cc, i).ip, g))
  }

  /** The first i gaps, each followed by the covered child it ends at. */
  ghost function Woven(gaps: seq<seq<Node>>, cc: seq<Node>, i: nat): seq<Node>
    requires i <= |gaps| && i <= |cc|
  {
    if i == 0 then [] else Woven(gaps, cc, i - 1) + gaps[i - 1] + [cc[i - 1]]
  }

  /** The weave of the first i gaps does not look past them. */
  lemma {:induction false} WovenExtend(gaps: seq<seq<Node>>, g: seq<Node>, cc: seq<Node>, i: nat)
    requires i <= |gaps| && i <= |cc|
    ensures Woven(gaps + [g], cc, i) == Woven(gaps, cc, i)
  {
    if i > 0 {
      WovenExtend(gaps, g, cc, i - 1);
      assert (gaps + [g])[i - 1] == gaps[i - 1];
    }
  }

  /**
   * The fill loop of `findRearrangements` (src/tree.js:363-379): before each
   * covered child, and after the last, the blocks `createSpan` finds to keep
   * the parent's value. The result is, in order, gap 0, child 0, gap 1, ...,
   * the last child and the last gap; it fails only where one of the gaps
   * leaves exact arithmetic.
   */
  method Fill(node: Node, cc: seq<Node>) returns (r: Result<seq<Node>>, ghost gaps: seq<seq<Node>>)
    ensures cc == [] ==> r == Ok([])
    ensures r.Ok? ==> forall i :: 0 <= i < |cc| ==> cc[i] in r.value
    ensures r.Ok? ==> forall x :: x in r.value ==>
      x in cc || (x.key == None && x.value == node.value && x.children == [])
    ensures r.Ok? && cc != [] ==> |gaps| == |cc| + 1 && r.value == Woven(gaps, cc, |cc|) + gaps[|cc|]
    ensures r.Ok? && cc != [] ==> forall i :: 0 <= i <= |cc| ==> GapFilled(node, cc, i, gaps[i])
    ensures (cc != [] && forall i :: 0 <= i <= |cc| ==>
      FillFrom(GapFrom(node, cc, i).Block(), GapUpto(node, cc, i).ip)) ==> r.Ok?
  {
    var acc: seq<Node> := [];
    gaps := [];
    var i := 0;
    while i < |cc|
      invariant i <= |cc| && Filled(node, cc, i, acc, gaps)
    {
      var gap :- CreateSpan(GapFrom(node, cc, i), GapUpto(node, cc, i), node.value);
      FillStep(node, cc, i, acc, gaps, gap);
      acc := acc + gap + [cc[i]];
      gaps := gaps + [gap];
      i := i + 1;
    }
    if |cc| == 0 {
      return Ok(acc), gaps;
    }
    var tail :- CreateSpan(GapFrom(node, cc, |cc|), GapUpto(node, cc, |cc|), node.value);
    FillEnd(node, cc, acc, gaps, tail);
    return Ok(acc + tail), gaps + [tail];
  }

  /** After i covered children, the fill holds them with their gaps, in order. */
  ghost predicate Filled(node: Node, cc: seq<Node>, i: nat, acc: seq<Node>, gaps: seq<seq<Node>>) {
    && i <= |cc| && (i == 0 ==> acc == [])
    && (forall t :: 0 <= t < i ==> cc[t] in acc)
    && (forall x :: x in acc ==> x in cc || (x.key == None && x.value == node.value && x.children == []))
    && |gaps| == i && acc == Woven(gaps, cc, i)
    && (forall t :: 0 <= t < i ==> GapFilled(node, cc, t, gaps[t]))
  }

  /** One gap and the child after it extend the fill. */
  lemma FillStep(node: Node, cc: seq<Node>, i: nat, acc: seq<Node>, gaps: seq<seq<Node>>, gap: seq<Node>)
    requires i < |cc| && Filled(node, cc, i, acc, gaps)
    requires forall j :: 0 <= j < |gap| ==> gap[j].key == None && gap[j].value == node.value && gap[j].children == []
    requires FillFrom(GapFrom(node, cc, i).Block(), GapUpto(node, cc, i).ip) ==>
      IsFill(End(GapFrom(node, cc, i).Block()), GapUpto(node, cc, i).ip, gap)
    ensures Filled(node, cc, i + 1, acc + gap + [cc[i]], gaps + [gap])
  {
    WovenExtend(gaps, gap, cc, i);
    var gs := gaps + [gap];
    assert GapFilled(node, cc, i, gap);
    forall t | 0 <= t < i + 1 ensures GapFilled(node, cc, t, gs[t]) {
      if t < i {
        assert gs[t] == gaps[t];
      }
    }
  }

  /** The last gap closes the fill. */
  lemma FillEnd(node: Node, cc: seq<Node>, acc: seq<Node>, gaps: seq<seq<Node>>, tail: seq<Node>)
    requires cc != [] && Filled(node, cc, |cc|, acc, gaps)
    requires forall j :: 0 <= j < |tail| ==> tail[j].key == None && tail[j].value == node.value && tail[j].children == []
    requires FillFrom(GapFrom(node, cc, |cc|).Block(), GapUpto(node, cc, |cc|).ip) ==>
      IsFill(End(GapFrom(node, cc, |cc|).Block()), GapUpto(node, cc, |cc|).ip, tail)
    ensures var gs := gaps + [tail];
      && |gs| == |cc| + 1 && acc + tail == Woven(gs, cc, |cc|) + gs[|cc|]
      && (forall i :: 0 <= i <= |cc| ==> GapFilled(node, cc, i, gs[i]))
  {
    WovenExtend(gaps, tail, cc, |cc|);
    var gs := gaps + [tail];
    assert GapFilled(node, cc, |cc|, tail);
    forall i | 0 <= i <= |cc| ensures GapFilled(node, cc, i, gs[i]) {
      if i < |cc| {
        assert gs[i] == gaps[i];
      }
    }
  }

  /** The size loop of `findRearrangements` (src/tree.js:383-386): the nodes in children [s, e). */
  method SizeBetween(cs: seq<Node>, s: int, e: int) returns (r: nat)
    requires 0 <= s <= |cs| || s >= e
    requires e <= |cs|
    ensures s < e ==> r == SizeSeq(cs[s..e])
    ensures s >= e ==> r == 0
  {
    r := 0;
    if s >= e {
      return;
    }
    var i := s;
    while i < e
      invariant s <= i <= e
      invariant r == SizeSeq(cs[s..i])
    {
      var n := TreeSize(cs[i]);
      assert cs[s..i + 1] == cs[s..i] + [cs[i]];
      SizeSeqAppendOne(cs[s..i], cs[i]);
      r := r + n;
      i := i + 1;
    }
  }

  /** Children [s, e) of n replaced by one node with fewer nodes in its subtree. */
  ghost predicate RunReplaced(n: Node, r: Node, s: int, e: int) {
    && 0 <= s < e <= |n.children|
    && |r.children| == s + 1 + (|n.children| - e)
    && r == n.(children := n.children[..s] + [r.children[s]] + n.children[e..])
    && Size(r.children[s]) < SizeSeq(n.children[s..e])
  }

  /** Replacing a run by a smaller subtree shrinks the tree. */
  lemma RunReplacedShrinks(n: Node, r: Node, s: int, e: int)
    requires RunReplaced(n, r, s, e)
    ensures Size(r) < Size(n)
  {
    var cs := n.children;
    Three(cs, s, e);
    SizeSeqAppend(cs[..s] + cs[s..e], cs[e..]);
    SizeSeqAppend(cs[..s], cs[s..e]);
    SizeSeqAppend(cs[..s] + [r.children[s]], cs[e..]);
    SizeSeqAppend(cs[..s], [r.children[s]]);
    assert [r.children[s]][1..] == [];
  }

  /** Prefix length 0 keeps nothing of an address. */
  lemma PrefixZero(a: int)
    requires 0 <= a < TWO32
    ensures Prefix(a, 0) == 0
  {
    Pow2Values();
  }

  /**
   * Under a well-formed node, a block of prefix length 1, or the /0 block at
   * address 0, contains no child but possibly the first.
   */
  lemma CoversFirstOnly(node: Node, k: Key)
    requires WF(node) && 0 <= k.cidr <= 1 && (k.cidr == 0 ==> k.ip == 0)
    ensures forall j :: 0 <= j < |node.children| && Contains(k, node.children[j].Block()) ==> j == 0
  {
    var cs := node.children;
    forall j | 0 < j < |cs|
      ensures !Contains(k, cs[j].Block())
    {
      assert End(cs[0].Block()) <= cs[j].ip;
    }
  }

  /**
   * `findRearrangements` (src/tree.js:330-401). With fewer than three
   * children the node is returned as it is. Otherwise the most frequent child
   * value is spanned from its first to its last child, the covered children
   * and the fills around them become the candidate's children, `dedup` runs
   * on them, and the run [spliceStart, spliceEnd) of children, which leaves
   * out the last covered child, is replaced by the candidate when that saves
   * nodes. A missing child for the value (`span(null, ...)`) and the arrays
   * `dedup` leaves behind throw, which is an error here.
   */
  method FindRearrangements(node: Node) returns (r: Result<Node>)
    ensures |node.children| < 3 ==> r == Ok(node)
    ensures r.Ok? ==> r.value == node || ((exists s, e :: RunReplaced(node, r.value, s, e)) && Size(r.value) < Size(node))
    ensures WF(node) && r.Ok? ==> r.value == node
  {
    var cs := node.children;
    if |cs| < 3 {
      return Ok(node);
    }
    var vc := CountValues(cs);
    assert ValueKey(cs[0].value) in vc.vals;
    var maxVal := MaxKey(vc);
    var first := FirstOf(node, Some(maxVal.value));
    var last := LastOf(node, Some(maxVal.value));
    if first.None? || last.None? {
      return Err(TypeError);
    }
    var a, b := first.value, last.value;
    if a.cidr > 32 {
      return Err(OutsideModel);
    }
    var cand := Span(a, b);
    r := Rearrange(node, a, b, cand);
  }

  /** The part of `findRearrangements` after the span (src/tree.js:358-400). */
  method Rearrange(node: Node, a: Node, b: Node, cand: Node) returns (r: Result<Node>)
    requires a in node.children && b in node.children && a.cidr <= 32
    requires IsSpan(a.Block(), b.Block(), cand.Block()) && cand.value == a.value && a.value.Some?
    ensures r.Ok? ==> r.value == node || ((exists s, e :: RunReplaced(node, r.value, s, e)) && Size(r.value) < Size(node))
    ensures WF(node) && r.Ok? ==> r.value == node
  {
    var cs := node.children;
    var cc, idx := Covered(cs, cand.Block());
    var s := if |idx| > 0 then idx[0] else -1;
    var e := if |idx| > 0 then idx[|idx| - 1] else -1;
    var fill, gaps := Fill(node, cc);
    var kids :- fill;
    // The candidate has a value, so `dedup` never meets `undefined` here.
    var deduped := Dedup(Node(cand.ip, cand.cidr, cand.key, cand.value, kids));
    var slots := deduped.value;
    if WF(node) && cand.cidr >= 2 {
      WideCandidateThrows(node, a, b, cand, cc, idx, kids, slots);
    }
    if WF(node) && cand.cidr <= 1 {
      NarrowCandidate(node, a, b, cand.Block(), idx);
    }
    r := Replace(node, Node(cand.ip, cand.cidr, cand.key, cand.value, []), slots, s, e);
  }

  /**
   * The end of `findRearrangements` (src/tree.js:382-398): children [s, e) are
   * replaced by the candidate with children `slots` when it has fewer nodes.
   */
  method Replace(node: Node, cand: Node, slots: seq<Slot>, s: int, e: int) returns (r: Result<Node>)
    requires (0 <= s <= e <= |node.children|) || s == e == -1
    ensures r.Ok? <==> forall i :: 0 <= i < |slots| ==> slots[i].Child?
    ensures r.Ok? ==> r.value == node || ((exists s, e :: RunReplaced(node, r.value, s, e)) && Size(r.value) < Size(node))
    ensures r.Ok? && s == e ==> r.value == node
  {
    var cs := node.children;
    var maxCount := SizeBetween(cs, s, e);
    var size :- SlotsSize(slots);
    if size < maxCount {
      var c := cand.(children := Nodes(slots));
      var n := node.(children := cs[..s] + [c] + cs[e..]);
      assert RunReplaced(node, n, s, e);
      RunReplacedShrinks(node, n, s, e);
      return Ok(n);
    }
    return Ok(node);
  }

  /** A span that falls back to a prefix length of 1 or 0 covers at most the first child. */
  lemma NarrowCandidate(node: Node, a: Node, b: Node, k: Key, idx: seq<int>)
    requires WF(node) && a in node.children && b in node.children && a.cidr <= 32
    requires IsSpan(a.Block(), b.Block(), k) && k.cidr <= 1
    requires forall t :: 0 <= t < |idx| ==> 0 <= idx[t] < |node.children| && Contains(k, node.children[idx[t]].Block())
    requires forall t, u :: 0 <= t < u < |idx| ==> idx[t] < idx[u]
    ensures |idx| <= 1
  {
    assert TreeBlock(a.Block()) && TreeBlock(b.Block());
    PrefixZero(Min(a.ip, b.ip));
    assert k.cidr == 0 ==> k.ip == 0;
    CoversFirstOnly(node, k);
    IncreasingLength(idx, 1);
  }

  /** A strictly increasing sequence of naturals below m has at most m elements. */
  lemma {:induction false} IncreasingLength(idx: seq<int>, m: int)
    requires m >= 0
    requires forall t :: 0 <= t < |idx| ==> 0 <= idx[t] < m
    requires forall t, u :: 0 <= t < u < |idx| ==> idx[t] < idx[u]
    ensures |idx| <= m
    decreases |idx|
  {
    if idx != [] {
      var n := |idx| - 1;
      assert forall t :: 0 <= t < n ==> idx[..n][t] == idx[t] < idx[n];
      IncreasingLength(idx[..n], idx[n]);
      assert idx[n] < m;
    }
  }

  /**
   * When the span is a real block, the first child with the value is
   * covered and `dedup` turns it into an array, so `treeSize` throws.
   */
  lemma WideCandidateThrows(node: Node, a: Node, b: Node, cand: Node, cc: seq<Node>, idx: seq<int>,
                            kids: seq<Node>, slots: seq<Slot>)
    requires WF(node) && a in node.children && b in node.children && cand.cidr >= 2
    requires IsSpan(a.Block(), b.Block(), cand.Block()) && cand.value == a.value && a.value.Some?
    requires |cc| == |idx|
    requires forall t :: 0 <= t < |idx| ==> 0 <= idx[t] < |node.children| && cc[t] == node.children[idx[t]]
    requires forall j :: 0 <= j < |node.children| ==> (Contains(cand.Block(), node.children[j].Block()) <==> j in idx)
    requires forall i :: 0 <= i < |cc| ==> cc[i] in kids
    requires |slots| == |kids| && forall i :: 0 <= i < |kids| ==> slots[i] == SlotOf(cand.value, kids[i])
    ensures exists p :: 0 <= p < |slots| && !slots[p].Child?
  {
    var cs := node.children;
    var fi :| 0 <= fi < |cs| && cs[fi] == a;
    assert TreeBlock(a.Block());
    assert Contains(cand.Block(), a.Block());
    var t :| 0 <= t < |idx| && idx[t] == fi;
    assert cc[t] == a;
    var p :| 0 <= p < |kids| && kids[p] == a;
    assert slots[p] == Spliced(a.children);
  }
}
