/**
 * The older prefix-tree utilities of src/util.js, which the build of
 * src/build.js uses. Nodes, blocks and flattening are shared with the tree of
 * src/tree.js; `contains`, `findKey` and `treeToTable` are the same code there.
 */
module UtilTree {
  import opened Wrappers
  import opened Arith
  import opened PrefixMath
  import opened TreeNodes
  import opened TreeFacts
  import opened JsObjects
  import opened TreeInsert
  import opened TreeSpan
  import opened TreeMerge
  import opened Seqs

  /** `table[k]` is truthy: present and not the empty string. */
  predicate Truthy(t: JsMap<Key, Value>, k: Key) {
    k in t.vals && t.vals[k] != ""
  }

  /** The /c block around ip has a truthy entry. */
  predicate MatchAt(t: JsMap<Key, Value>, ip: int, c: int)
    requires 0 <= c <= 32
  {
    Truthy(t, Key(Prefix(ip, c), c))
  }

  /**
   * `resolve` (src/util.js:11-24): the longest prefix of ip, from /32 down to
   * /1, with a truthy entry; /0 is never tried.
   */
  method Resolve(t: JsMap<Key, Value>, ip: int) returns (r: Option<Key>)
    ensures r.None? ==> forall c :: 1 <= c <= 32 ==> !MatchAt(t, ip, c)
    ensures r.Some? ==> 1 <= r.value.cidr <= 32 && r.value == Key(Prefix(ip, r.value.cidr), r.value.cidr)
    ensures r.Some? ==> MatchAt(t, ip, r.value.cidr) && forall c :: r.value.cidr < c <= 32 ==> !MatchAt(t, ip, c)
    ensures r.Some? ==> r.value.ip <= ip < End(r.value)
  {
    var cidr := 32;
    var subnet := Prefix(ip, cidr);
    while cidr > 0
      invariant 0 <= cidr <= 32 && subnet == Prefix(ip, cidr)
      invariant forall c :: cidr < c <= 32 ==> !MatchAt(t, ip, c)
    {
      if Truthy(t, Key(subnet, cidr)) {
        return Some(Key(subnet, cidr));
      }
      assert !MatchAt(t, ip, cidr);
      PrefixOfPrefix(ip, cidr, cidr - 1);
      cidr := cidr - 1;
      subnet := Prefix(subnet, cidr);
    }
    return None;
  }

  /** `span` (src/util.js:134-148): the loop of the tree's span, with no key set. */
  method UtilSpan(a: Node, b: Node) returns (r: Node)
    requires a.cidr <= 32
    ensures IsSpan(a.Block(), b.Block(), r.Block())
    ensures r.key == None && r.value == a.value && r.children == []
  {
    var k := SpanBlock(a.Block(), b.Block());
    r := Node(k.ip, k.cidr, None, a.value, []);
  }

  /** One past the last address as `ip + (1 << (32 - cidr))` computes it. */
  function JsEnd(k: Key): (r: int)
    ensures 2 <= k.cidr <= 32 ==> r == End(k)
  {
    k.ip + JsBlockSize(k.cidr)
  }

  /** Where the binary search of `insertInTree` (src/util.js:72-87) stops, from window len at pos. */
  function SearchPos(cs: seq<Node>, n: Key, len: int, pos: int): (r: int)
    requires |cs| > 0 ==> 0 <= pos < |cs|
    decreases len
    ensures |cs| > 0 ==> 0 <= r < |cs|
    ensures |cs| == 0 || len < 1 ==> r == pos
  {
    if len < 1 || |cs| == 0 then pos
    else SearchPos(cs, n, len / 2, SearchStep(cs, n, len, pos))
  }

  /** One halving step of that search: move right, left or stay, then clamp to the children. */
  function SearchStep(cs: seq<Node>, n: Key, len: int, pos: int): (r: int)
    requires 0 <= pos < |cs|
    ensures 0 <= r < |cs|
    ensures JsEnd(cs[pos].Block()) > n.ip && cs[pos].ip <= n.ip ==> r == pos
  {
    var p :=
      if JsEnd(cs[pos].Block()) <= n.ip then (2 * pos + len) / 2
      else if cs[pos].ip > n.ip then (2 * pos - len) / 2
      else pos;
    if p < 0 then 0 else if p >= |cs| then |cs| - 1 else p
  }

  /** The binary search loop of `insertInTree` (src/util.js:72-87). */
  method BinarySearch(cs: seq<Node>, n: Key) returns (pos: int)
    ensures pos == SearchPos(cs, n, |cs|, |cs| / 2)
    ensures |cs| > 0 ==> 0 <= pos < |cs|
    ensures |cs| == 0 ==> pos == 0
  {
    var len := |cs|;
    pos := len / 2;
    while len >= 1
      invariant 0 <= len
      invariant |cs| > 0 ==> 0 <= pos < |cs|
      invariant |cs| == 0 ==> len == 0 && pos == 0
      invariant SearchPos(cs, n, len, pos) == SearchPos(cs, n, |cs|, |cs| / 2)
    {
      ghost var before := pos;
      if JsEnd(cs[pos].Block()) <= n.ip {
        pos := (2 * pos + len) / 2;
      } else if cs[pos].ip > n.ip {
        pos := (2 * pos - len) / 2;
      }
      if pos < 0 {
        pos := 0;
      } else if pos >= |cs| {
        pos := |cs| - 1;
      }
      assert pos == SearchStep(cs, n, len, before);
      len := len / 2;
    }
  }

  /**
   * The tree `insertInTree` (src/util.js:70-98) leaves: where the binary
   * search stops, it descends into a child containing the node, or splices
   * the node in there, one place later if that child ends at or before it.
   */
  function UtilInserted(root: Node, node: Node): Node
    decreases root
  {
    var cs := root.children;
    var pos := SearchPos(cs, node.Block(), |cs|, |cs| / 2);
    if pos < |cs| && Contains(cs[pos].Block(), node.Block()) then
      root.(children := cs[pos := UtilInserted(cs[pos], node)])
    else
      var p := if pos < |cs| && JsEnd(cs[pos].Block()) <= node.ip then pos + 1 else pos;
      root.(children := cs[..p] + [node] + cs[p..])
  }

  /** `insertInTree` (src/util.js:70-98). */
  method UtilInsertInTree(root: Node, node: Node) returns (r: Node)
    decreases root
    ensures r == UtilInserted(root, node)
  {
    var cs := root.children;
    var pos := BinarySearch(cs, node.Block());
    if pos < |cs| && Contains(cs[pos].Block(), node.Block()) {
      var child := UtilInsertInTree(cs[pos], node);
      return root.(children := cs[pos := child]);
    }
    if pos < |cs| && JsEnd(cs[pos].Block()) <= node.ip {
      pos := pos + 1;
    }
    return root.(children := cs[..pos] + [node] + cs[pos..]);
  }

  /**
   * Whatever the search does, the insertion never throws, loses or moves an
   * entry: the labels are the old ones and the node's, and the size adds up.
   */
  lemma {:induction false} UtilInsertedKeeps(root: Node, node: Node)
    decreases root
    ensures SameHeader(UtilInserted(root, node), root)
    ensures Entries(UtilInserted(root, node)) == Entries(root) + EntriesSelf(node)
    ensures Size(UtilInserted(root, node)) == Size(root) + Size(node)
  {
    var cs := root.children;
    var pos := SearchPos(cs, node.Block(), |cs|, |cs| / 2);
    if pos < |cs| && Contains(cs[pos].Block(), node.Block()) {
      var c := UtilInserted(cs[pos], node);
      assert UtilInserted(root, node) == root.(children := cs[pos := c]);
      UtilInsertedKeeps(cs[pos], node);
      ReplaceMeasures(cs, pos, c, node);
    } else {
      var p := if pos < |cs| && JsEnd(cs[pos].Block()) <= node.ip then pos + 1 else pos;
      assert UtilInserted(root, node) == root.(children := cs[..p] + [node] + cs[p..]);
      SpliceInMeasures(cs, p, node);
    }
  }

  /** Replacing child k by one that carries x as well adds x's labels and size. */
  lemma ReplaceMeasures(cs: seq<Node>, k: nat, c: Node, x: Node)
    requires k < |cs|
    requires Entries(c) == Entries(cs[k]) + EntriesSelf(x) && Size(c) == Size(cs[k]) + Size(x) && Label(c) == Label(cs[k])
    ensures EntriesSeq(cs[k := c]) == EntriesSeq(cs) + EntriesSelf(x)
    ensures SizeSeq(cs[k := c]) == SizeSeq(cs) + Size(x)
  {
    SplitAt(cs, k);
    SplitAt(cs[k := c], k);
    assert cs[k := c][..k] == cs[..k] && cs[k := c][k + 1..] == cs[k + 1..];
  }

  /** Splicing x into a sibling list adds x's labels and size. */
  lemma SpliceInMeasures(cs: seq<Node>, p: nat, x: Node)
    requires p <= |cs|
    ensures EntriesSeq(cs[..p] + [x] + cs[p..]) == EntriesSeq(cs) + EntriesSelf(x)
    ensures SizeSeq(cs[..p] + [x] + cs[p..]) == SizeSeq(cs) + Size(x)
  {
    var ns := cs[..p] + [x] + cs[p..];
    Two(cs, p);
    SizeSeqAppend(cs[..p], cs[p..]);
    EntriesSeqAppend(cs[..p], cs[p..]);
    SplitAt(ns, p);
    InsertedParts(cs, p, x);
  }

  /** Block c lies within block p (possibly equal to it). */
  predicate Within(c: Key, p: Key) {
    p.ip <= c.ip && End(c) <= End(p)
  }

  /** No block in the tree below root lies within k. */
  ghost predicate NoneWithin(k: Key, root: Node) {
    forall e :: e in Entries(root) ==> !Within(EntryBlock(e), k)
  }

  /** The number of leading children that precede n. */
  function PrecedingCount(cs: seq<Node>, n: Key): (p: nat)
    ensures p <= |cs|
    ensures forall j :: 0 <= j < p ==> Precedes(cs[j].Block(), n)
    ensures p < |cs| ==> !Precedes(cs[p].Block(), n)
  {
    if cs == [] || !Precedes(cs[0].Block(), n) then 0
    else 1 + PrecedingCount(cs[1..], n)
  }

  /** The count is the only index with that description. */
  lemma PrecedingCountUnique(cs: seq<Node>, n: Key, p: nat)
    requires p <= |cs| && forall j :: 0 <= j < p ==> Precedes(cs[j].Block(), n)
    requires p < |cs| ==> !Precedes(cs[p].Block(), n)
    ensures PrecedingCount(cs, n) == p
  {
  }

  /**
   * `insertInTree` as evidently intended: the node goes after exactly the
   * children that precede it, or into the child there when that contains it.
   */
  function FixedInserted(root: Node, node: Node): Node
    decreases root
  {
    var cs := root.children;
    var p := PrecedingCount(cs, node.Block());
    if p < |cs| && Contains(cs[p].Block(), node.Block()) then
      root.(children := cs[p := FixedInserted(cs[p], node)])
    else
      root.(children := cs[..p] + [node] + cs[p..])
  }

  /** The corrected insert: a linear scan in place of the binary search. */
  method FixedInsertInTree(root: Node, node: Node) returns (r: Node)
    decreases root
    ensures r == FixedInserted(root, node)
  {
    var cs := root.children;
    var p := 0;
    while p < |cs| && Precedes(cs[p].Block(), node.Block())
      invariant p <= |cs| && forall j :: 0 <= j < p ==> Precedes(cs[j].Block(), node.Block())
    {
      p := p + 1;
    }
    PrecedingCountUnique(cs, node.Block(), p);
    if p < |cs| && Contains(cs[p].Block(), node.Block()) {
      var child := FixedInsertInTree(cs[p], node);
      return root.(children := cs[p := child]);
    }
    return root.(children := cs[..p] + [node] + cs[p..]);
  }

  /** Where the corrected insert splices, the node ends before the next child begins. */
  lemma AfterSplice(c: Key, n: Key)
    requires TreeBlock(c) && TreeBlock(n)
    requires !Contains(c, n) && !Precedes(c, n) && !Within(c, n)
    ensures End(n) <= c.ip
  {
    if c.cidr <= n.cidr {
      NestedOrDisjoint(c, n);
    } else {
      NestedOrDisjoint(n, c);
    }
  }

  /** A child replaced by one with the same header and well formed keeps the parent well formed. */
  lemma WithChild(root: Node, k: nat, c: Node)
    requires WF(root) && k < |root.children| && SameHeader(c, root.children[k]) && WF(c)
    ensures WF(root.(children := root.children[k := c]))
  {
    var cs := root.children[k := c];
    assert forall j :: 0 <= j < |cs| ==> cs[j].Block() == root.children[j].Block();
  }

  /** Splicing a block between the siblings that end before it and those that start after it keeps them sorted. */
  lemma SortedSplice(cs: seq<Node>, p: nat, node: Node)
    requires Sorted(cs) && p <= |cs|
    requires forall j :: 0 <= j < |cs| ==> TreeBlock(cs[j].Block())
    requires forall j :: 0 <= j < p ==> End(cs[j].Block()) <= node.ip
    requires p < |cs| ==> End(node.Block()) <= cs[p].ip
    ensures Sorted(cs[..p] + [node] + cs[p..])
  {
    var ns := cs[..p] + [node] + cs[p..];
    assert forall j :: 0 <= j < |ns| ==> ns[j] == if j < p then cs[j] else if j == p then node else cs[j - 1];
    forall x, y | 0 <= x < y < |ns|
      ensures End(ns[x].Block()) <= ns[y].ip
    {
      if x == p && y - 1 > p {
        assert cs[p].ip < End(cs[p].Block()) <= cs[y - 1].ip;
      }
    }
  }

  /** Splicing a node between the children before and after it keeps the parent well formed. */
  lemma SpliceWF(root: Node, p: nat, node: Node)
    requires WF(root) && Insertable(root.Block(), node) && p <= |root.children|
    requires forall j :: 0 <= j < p ==> End(root.children[j].Block()) <= node.ip
    requires p < |root.children| ==> End(node.Block()) <= root.children[p].ip
    ensures WF(root.(children := root.children[..p] + [node] + root.children[p..]))
  {
    var cs := root.children;
    SortedSplice(cs, p, node);
    var ns := cs[..p] + [node] + cs[p..];
    forall j | 0 <= j < |ns|
      ensures TreeBlock(ns[j].Block()) && Inside(root.Block(), ns[j].Block()) && WF(ns[j])
    {
      if j < p {
        assert ns[j] == cs[j];
      } else if j == p {
        assert ns[j] == node;
      } else {
        assert ns[j] == cs[j - 1];
      }
    }
  }

  /** Like the original, the corrected insert never loses an entry. */
  lemma {:induction false} FixedInsertedKeeps(root: Node, node: Node)
    decreases root
    ensures SameHeader(FixedInserted(root, node), root)
    ensures Entries(FixedInserted(root, node)) == Entries(root) + EntriesSelf(node)
    ensures Size(FixedInserted(root, node)) == Size(root) + Size(node)
  {
    var cs := root.children;
    var p := PrecedingCount(cs, node.Block());
    if p < |cs| && Contains(cs[p].Block(), node.Block()) {
      FixedInsertedKeeps(cs[p], node);
      ReplaceMeasures(cs, p, FixedInserted(cs[p], node), node);
    } else {
      SpliceInMeasures(cs, p, node);
    }
  }

  /**
   * The corrected insert keeps the tree well formed, provided no block
   * already in the tree lies within the node's (which inserting in order of
   * prefix length guarantees).
   */
  lemma {:induction false} FixedInsertedWF(root: Node, node: Node)
    requires WF(root) && Insertable(root.Block(), node) && NoneWithin(node.Block(), root)
    decreases root
    ensures WF(FixedInserted(root, node))
  {
    var cs := root.children;
    var p := PrecedingCount(cs, node.Block());
    if p < |cs| && Contains(cs[p].Block(), node.Block()) {
      ContainsInside(cs[p].Block(), node.Block());
      EntriesSeqHas(cs, p);
      assert NoneWithin(node.Block(), cs[p]);
      FixedInsertedWF(cs[p], node);
      FixedInsertedKeeps(cs[p], node);
      WithChild(root, p, FixedInserted(cs[p], node));
    } else {
      if p < |cs| {
        EntriesSeqHas(cs, p);
        assert Label(cs[p]) in Entries(root);
        AfterSplice(cs[p].Block(), node.Block());
      }
      SpliceWF(root, p, node);
    }
  }

  /** A block is never within a different block with an equal or longer prefix. */
  lemma NotWithinShorter(e: Key, n: Key)
    requires 0 <= e.cidr <= n.cidr <= 32 && e != n
    ensures !Within(e, n)
  {
    var se, sn := BlockSize(e.cidr), BlockSize(n.cidr);
    assert End(e) == e.ip + se && End(n) == n.ip + sn;
    if e.cidr < n.cidr {
      var d := n.cidr - e.cidr;
      BlockSizeFactor(e.cidr, n.cidr);
      Pow2Monotone(1, d);
      Pow2Table();
      TooWide(e.ip, se, n.ip, sn, Pow2(d));
    }
  }

  /** A window at least twice as wide does not fit in another. */
  lemma TooWide(a: int, sa: int, b: int, sb: int, f: int)
    requires sb > 0 && f >= 2 && sa == sb * f
    ensures !(b <= a && a + sa <= b + sb)
  {
    MulAtLeast(f - 1, sb);
    assert sa == sb + (f - 1) * sb;
  }

  /** The labels inserted before the i-th sorted key are table keys no longer than it. */
  lemma LabelsShorter(t: JsMap<Key, Value>, sorted: seq<Key>, i: nat)
    requires i < |sorted| && forall j :: 0 <= j < |sorted| ==> sorted[j] in t.vals
    requires CidrOrdered(sorted)
    ensures forall e :: e in LabelsUpTo(t, sorted, i) ==> EntryBlock(e) in t.vals && EntryBlock(e).cidr <= sorted[i].cidr
  {
    forall e | e in LabelsUpTo(t, sorted, i)
      ensures EntryBlock(e) in t.vals && EntryBlock(e).cidr <= sorted[i].cidr
    {
      var j :| 0 <= j < i && e == Label(NodeOf(t, sorted[j]));
    }
  }

  /**
   * `tableToTree` (src/util.js:42-65), with the corrected insert: the keys,
   * ordered by prefix length, are inserted into an empty root. The tree keeps
   * exactly the table's entries, and for a table of tree blocks it is well
   * formed.
   */
  method UtilTableToTree(t: JsMap<Key, Value>) returns (r: Node)
    requires Valid(t)
    ensures SameHeader(r, EmptyRoot())
    ensures Entries(r) == TableEntries(t)
    ensures (forall k :: k in t.vals ==> TreeBlock(k)) ==> WF(r)
  {
    var sorted := SortByCidr(t.keys);
    ghost var blocks := forall k :: k in t.vals ==> TreeBlock(k);
    SortedKeys(t, sorted);
    var root := EmptyRoot();
    var i := 0;
    while i < |sorted|
      invariant i <= |sorted|
      invariant SameHeader(root, EmptyRoot())
      invariant blocks ==> WF(root)
      invariant Entries(root) == LabelsUpTo(t, sorted, i)
    {
      var node := NodeOf(t, sorted[i]);
      UtilTableStep(t, sorted, i, root, blocks);
      root := FixedInsertInTree(root, node);
      i := i + 1;
    }
    LabelsAll(t, sorted);
    r := root;
  }

  /**
   * `tableToTree` (src/util.js:42-65) as written, with the binary-search
   * insert. Whatever order the siblings end up in, the tree keeps exactly
   * the table's entries.
   */
  method UtilTableToTreeAsWritten(t: JsMap<Key, Value>) returns (r: Node)
    requires Valid(t)
    ensures SameHeader(r, EmptyRoot())
    ensures Entries(r) == TableEntries(t)
  {
    var sorted := SortByCidr(t.keys);
    SortedKeys(t, sorted);
    var root := EmptyRoot();
    var i := 0;
    while i < |sorted|
      invariant i <= |sorted|
      invariant SameHeader(root, EmptyRoot())
      invariant Entries(root) == LabelsUpTo(t, sorted, i)
    {
      var node := NodeOf(t, sorted[i]);
      UtilInsertedKeeps(root, node);
      LabelsStep(t, sorted, i);
      root := UtilInsertInTree(root, node);
      i := i + 1;
    }
    LabelsAll(t, sorted);
    r := root;
  }

  /** One insertion of UtilTableToTree keeps its loop invariant. */
  lemma UtilTableStep(t: JsMap<Key, Value>, sorted: seq<Key>, i: nat, root: Node, blocks: bool)
    requires i < |sorted| && (forall j :: 0 <= j < |sorted| ==> sorted[j] in t.vals)
    requires Distinct(sorted) && CidrOrdered(sorted)
    requires blocks ==> forall k :: k in t.vals ==> TreeBlock(k)
    requires SameHeader(root, EmptyRoot()) && (blocks ==> WF(root)) && Entries(root) == LabelsUpTo(t, sorted, i)
    ensures var next := FixedInserted(root, NodeOf(t, sorted[i]));
      && SameHeader(next, EmptyRoot()) && (blocks ==> WF(next))
      && Entries(next) == LabelsUpTo(t, sorted, i + 1)
  {
    var node := NodeOf(t, sorted[i]);
    LabelsStep(t, sorted, i);
    LabelsShorter(t, sorted, i);
    if blocks {
      UnderRoot(sorted[i]);
      forall e | e in Entries(root) ensures !Within(EntryBlock(e), node.Block()) {
        NotWithinShorter(EntryBlock(e), node.Block());
      }
      FixedInsertedWF(root, node);
    }
    FixedInsertedKeeps(root, node);
  }

  lemma PairMeasures(a: Node, b: Node, post: seq<Node>, m: Node)
    requires m.children == a.children + b.children
    ensures SizeSeq([m] + post) + 1 == SizeSeq([a] + [b] + post)
    ensures BelowSeq([m] + post) == BelowSeq([a] + [b] + post)
  {
    SizeSeqAppend(a.children, b.children);
    EntriesSeqAppend(a.children, b.children);
    assert Size(m) + 1 == Size(a) + Size(b);
    assert ([a] + [b] + post)[0] == a && ([b] + post)[0] == b && ([m] + post)[0] == m;
    assert ([a] + [b] + post)[1..] == [b] + post;
    assert ([b] + post)[1..] == post;
    assert ([m] + post)[1..] == post;
  }

  /**
   * Replacing children i - 1 and i by one node that adopts both their
   * children removes one node and keeps every deeper label.
   */
  lemma MergeMeasures(cs: seq<Node>, i: nat, m: Node)
    requires 1 <= i < |cs| && m.children == cs[i - 1].children + cs[i].children
    ensures SizeSeq(cs[..i - 1] + [m] + cs[i + 1..]) + 1 == SizeSeq(cs)
    ensures BelowSeq(cs[..i - 1] + [m] + cs[i + 1..]) == BelowSeq(cs)
  {
    var pre, post := cs[..i - 1], cs[i + 1..];
    var old2, new1 := [cs[i - 1]] + [cs[i]] + post, [m] + post;
    AroundPair(cs, i);
    Regroup(pre, m, post);
    PairMeasures(cs[i - 1], cs[i], post, m);
    SizeSeqAppend(pre, old2);
    SizeSeqAppend(pre, new1);
    BelowSeqAppend(pre, old2);
    BelowSeqAppend(pre, new1);
  }

  /** The pair test of `safeMerge` (src/util.js:165-166): equal values and equal prefix lengths. */
  predicate Candidate(cs: seq<Node>, i: int)
    requires 1 <= i < |cs|
  {
    cs[i].value == cs[i - 1].value && cs[i].cidr == cs[i - 1].cidr
  }

  /**
   * Some sibling in the unbroken run of siblings k contains after i, or in
   * the one before i - 1, carries a value other than v.
   */
  predicate CoveredBad(cs: seq<Node>, k: Key, v: Option<Value>, i: int)
    requires 0 <= i < |cs|
  {
    exists j :: 0 <= j < |cs| && cs[j].value != v && (
      || (i < j && forall l :: i < l <= j ==> Contains(k, cs[l].Block()))
      || (j < i - 1 && forall l :: j <= l < i - 1 ==> Contains(k, cs[l].Block())))
  }

  /**
   * One merge attempt of `safeMerge` (src/util.js:167-193) at candidate pair
   * i - 1, i: None when a covered neighbour has another value, otherwise the
   * pair replaced by their keyless span adopting both their children.
   */
  method UtilMergeAt(n: Node, i: nat) returns (r: Result<Option<Node>>)
    requires 1 <= i < |n.children| && Candidate(n.children, i)
    ensures r.Err? <==> n.children[i].cidr > 32
    ensures r == Ok(None) ==>
      exists k ::
        IsSpan(n.children[i].Block(), n.children[i - 1].Block(), k) && CoveredBad(n.children, k, n.children[i].value, i)
    ensures r.Ok? && r.value.Some? ==>
      exists k ::
        && IsSpan(n.children[i].Block(), n.children[i - 1].Block(), k)
        && !CoveredBad(n.children, k, n.children[i].value, i)
        && r.value.value == n.(children := n.children[..i - 1]
             + [Node(k.ip, k.cidr, None, n.children[i].value, n.children[i - 1].children + n.children[i].children)]
             + n.children[i + 1..])
  {
    var cs := n.children;
    if cs[i].cidr > 32 {
      return Err(OutsideModel);
    }
    var merged := UtilSpan(cs[i], cs[i - 1]);
    var hi, badAfter := ScanForward(cs, merged.Block(), merged.value, i + 1);
    var lo, badBefore := ScanBackward(cs, merged.Block(), merged.value, i - 2);
    if badAfter {
      var j :| i + 1 <= j < hi && cs[j].value != merged.value;
      assert CoveredBad(cs, merged.Block(), cs[i].value, i);
      return Ok(None);
    }
    if badBefore {
      var j :| lo < j <= i - 2 && cs[j].value != merged.value;
      assert CoveredBad(cs, merged.Block(), cs[i].value, i);
      return Ok(None);
    }
    merged := merged.(children := cs[i - 1].children + cs[i].children);
    r := Ok(Some(n.(children := cs[..i - 1] + [merged] + cs[i + 1..])));
  }

  /** What one merge at pair i - 1, i with span k does to the node. */
  lemma MergedFacts(n: Node, i: nat, k: Key)
    requires 1 <= i < |n.children| && n.children[i].cidr <= 32 && IsSpan(n.children[i].Block(), n.children[i - 1].Block(), k)
    ensures var cs := n.children;
      var m := Node(k.ip, k.cidr, None, cs[i].value, cs[i - 1].children + cs[i].children);
      var r := n.(children := cs[..i - 1] + [m] + cs[i + 1..]);
      && |r.children| + 1 == |cs| && Size(r) + 1 == Size(n)
      && BelowSeq(r.children) == BelowSeq(cs)
      && (forall c :: c in r.children ==> c == m || c in cs)
      && m.key == None && m.cidr <= 32
  {
    var cs := n.children;
    var m := Node(k.ip, k.cidr, None, cs[i].value, cs[i - 1].children + cs[i].children);
    MergeMeasures(cs, i, m);
    var ns := cs[..i - 1] + [m] + cs[i + 1..];
    assert forall c :: c in ns ==> c == m || c in cs;
  }

  /**
   * `b` is `a` after the merge at candidate pair i - 1, i with span k: no
   * covered neighbour has another value, and the pair is replaced by its
   * keyless span, carrying the pair's value and both children lists.
   */
  ghost predicate UtilMergesAt(a: Node, i: int, k: Key, b: Node)
    requires 1 <= i < |a.children|
  {
    var cs := a.children;
    && Candidate(cs, i) && cs[i].cidr <= 32
    && IsSpan(cs[i].Block(), cs[i - 1].Block(), k) && !CoveredBad(cs, k, cs[i].value, i)
    && b == a.(children := cs[..i - 1] + [Node(k.ip, k.cidr, None, cs[i].value, cs[i - 1].children + cs[i].children)] + cs[i + 1..])
  }

  /** `b` is `a` after one merge of `safeMerge`. */
  ghost predicate UtilMerges(a: Node, b: Node) {
    exists i, k :: 1 <= i < |a.children| && UtilMergesAt(a, i, k, b)
  }

  /** `steps` runs from `node` to `cur` by nm merges. */
  ghost predicate UtilMergeTrace(steps: seq<Node>, node: Node, cur: Node, nm: nat) {
    && |steps| == nm + 1 && steps[0] == node && steps[nm] == cur
    && forall p :: 0 <= p < nm ==> UtilMerges(steps[p], steps[p + 1])
  }

  /** The candidate pair i - 1, i is declined: a neighbour its span covers has another value. */
  ghost predicate UtilDeclined(cs: seq<Node>, i: int)
    requires 1 <= i < |cs|
  {
    cs[i].cidr <= 32 && exists k :: IsSpan(cs[i].Block(), cs[i - 1].Block(), k) && CoveredBad(cs, k, cs[i].value, i)
  }

  /**
   * `safeMerge` (src/util.js:157-197): every pair of adjacent children with
   * equal values and equal prefix lengths is replaced by their keyless span,
   * which adopts both their children, unless a sibling covered by the span
   * next to the pair has another value. The ghost `steps` lists the merges
   * one UtilMergesAt at a time, and a walk that merges nothing was declined
   * at every candidate pair. Each merge removes one node; no label below the
   * children is lost; every keyed child left was a child before.
   * `parentValue` is unused, as in the source.
   */
  method UtilSafeMerge(node: Node, parentValue: Option<Value>) returns (r: Result<(Node, nat)>, ghost steps: seq<Node>)
    ensures r.Ok? ==> SameHeader(r.value.0, node)
    ensures r.Ok? ==> UtilMergeTrace(steps, node, r.value.0, r.value.1)
    ensures r.Ok? ==> |r.value.0.children| + r.value.1 == |node.children| && Size(r.value.0) + r.value.1 == Size(node)
    ensures r.Ok? ==> BelowSeq(r.value.0.children) == BelowSeq(node.children)
    ensures r.Ok? ==> forall c :: c in r.value.0.children && c.key.Some? ==> c in node.children
    ensures r.Ok? && r.value.1 == 0 ==> r.value.0 == node
    ensures r.Ok? && r.value.1 == 0 ==>
      forall j :: 1 <= j < |node.children| && Candidate(node.children, j) ==> UtilDeclined(node.children, j)
    ensures (forall c :: c in node.children ==> c.cidr <= 32) ==> r.Ok?
    ensures (forall j :: 1 <= j < |node.children| ==> !Candidate(node.children, j)) ==> r == Ok((node, 0))
  {
    var cur, nm := node, 0;
    steps := [node];
    var i := 1;
    while i < |cur.children|
      invariant 1 <= i && UtilMergedSoFar(node, cur, nm) && UtilMergeTrace(steps, node, cur, nm)
      invariant nm == 0 ==> UtilDeclinedBelow(node.children, i)
      decreases |cur.children| - i
    {
      if Candidate(cur.children, i) {
        var res := UtilMergeAt(cur, i);
        if res.Err? {
          return Err(res.error), steps;
        }
        if res.value.Some? {
          UtilMergeStep(node, cur, nm, i, res.value.value);
          UtilTraceExtend(steps, node, cur, nm, res.value.value);
          steps := steps + [res.value.value];
          cur, nm := res.value.value, nm + 1;
          i := i - 1;
        }
      }
      i := i + 1;
    }
    r := Ok((cur, nm));
  }

  /** Every candidate pair before i was declined. */
  ghost predicate UtilDeclinedBelow(cs: seq<Node>, i: int) {
    forall j :: 1 <= j < i && j < |cs| && Candidate(cs, j) ==> UtilDeclined(cs, j)
  }

  /** One more merge extends the trace by one step. */
  lemma UtilTraceExtend(steps: seq<Node>, node: Node, cur: Node, nm: nat, next: Node)
    requires UtilMergeTrace(steps, node, cur, nm) && UtilMerges(cur, next)
    ensures UtilMergeTrace(steps + [next], node, next, nm + 1)
  {
    var s := steps + [next];
    forall p | 0 <= p < nm + 1
      ensures UtilMerges(s[p], s[p + 1])
    {
      if p < nm {
        assert s[p] == steps[p] && s[p + 1] == steps[p + 1];
      } else {
        assert s[p] == cur && s[p + 1] == next;
      }
    }
  }


  /** No child has a candidate pair with its predecessor. */
  predicate NoCandidates(cs: seq<Node>) {
    forall j :: 1 <= j < |cs| ==> !Candidate(cs, j)
  }

  /** Every child's prefix length is at most 32. */
  predicate AllSmall(cs: seq<Node>) {
    forall c :: c in cs ==> c.cidr <= 32
  }

  /** The loop state of UtilSafeMerge: cur is node after nm merges. */
  ghost predicate UtilMergedSoFar(node: Node, cur: Node, nm: nat) {
    && SameHeader(cur, node)
    && |cur.children| + nm == |node.children| && Size(cur) + nm == Size(node)
    && BelowSeq(cur.children) == BelowSeq(node.children)
    && (forall c :: c in cur.children && c.key.Some? ==> c in node.children)
    && (AllSmall(node.children) ==> AllSmall(cur.children))
    && (nm == 0 ==> cur == node)
    && (NoCandidates(node.children) ==> nm == 0)
  }

  /** One merge of UtilSafeMerge keeps its loop state and removes one child. */
  lemma UtilMergeStep(node: Node, cur: Node, nm: nat, i: nat, next: Node)
    requires 1 <= i < |cur.children| && Candidate(cur.children, i) && cur.children[i].cidr <= 32
    requires UtilMergedSoFar(node, cur, nm)
    requires exists k ::
      && IsSpan(cur.children[i].Block(), cur.children[i - 1].Block(), k)
      && !CoveredBad(cur.children, k, cur.children[i].value, i)
      && next == cur.(children := cur.children[..i - 1]
           + [Node(k.ip, k.cidr, None, cur.children[i].value, cur.children[i - 1].children + cur.children[i].children)]
           + cur.children[i + 1..])
    ensures UtilMergedSoFar(node, next, nm + 1) && |next.children| + 1 == |cur.children|
    ensures UtilMerges(cur, next)
  {
    var cs := cur.children;
    var k :| && IsSpan(cs[i].Block(), cs[i - 1].Block(), k)
      && !CoveredBad(cs, k, cs[i].value, i)
      && next == cur.(children := cs[..i - 1]
           + [Node(k.ip, k.cidr, None, cs[i].value, cs[i - 1].children + cs[i].children)]
           + cs[i + 1..]);
    MergedFacts(cur, i, k);
    assert UtilMergesAt(cur, i, k, next);
  }

  /** The /16 leaf `10.b.0.0/16` labelled "US". */
  function Net16(b: nat): Node {
    var ip := 0x0A00_0000 + b * 0x1_0000;
    Node(ip, 16, Some(Key(ip, 16)), Some("US"), [])
  }

  /** The six children of the sample root. */
  function SampleChildren(): seq<Node> {
    [Net16(0), Net16(1), Net16(2), Net16(3), Net16(4), Net16(6)]
  }

  lemma Net16Block(b: nat)
    requires b <= 6
    ensures TreeBlock(Net16(b).Block()) && WF(Net16(b))
    ensures End(Net16(b).Block()) == Net16(b).ip + 0x1_0000 == JsEnd(Net16(b).Block())
    ensures Inside(EmptyRoot().Block(), Net16(b).Block())
  {
    Pow2Table();
    assert Net16(b).ip == (0x0A00 + b) * 0x1_0000;
    ModOfMultiple(0x0A00 + b, 0x1_0000);
  }

  /** The second octet of the sample's j-th child. */
  function SampleOctet(j: nat): nat {
    if j < 5 then j else 6
  }

  lemma SampleAt(j: nat)
    requires j < 6
    ensures |SampleChildren()| == 6 && SampleChildren()[j] == Net16(SampleOctet(j))
  {
  }

  lemma SampleRootWF()
    ensures WF(EmptyRoot().(children := SampleChildren()))
  {
    var cs := SampleChildren();
    forall j | 0 <= j < |cs|
      ensures TreeBlock(cs[j].Block()) && WF(cs[j]) && Inside(EmptyRoot().Block(), cs[j].Block())
      ensures End(cs[j].Block()) == cs[j].ip + 0x1_0000
      ensures cs[j].ip == 0x0A00_0000 + SampleOctet(j) * 0x1_0000
    {
      SampleAt(j);
      Net16Block(SampleOctet(j));
    }
    assert Sorted(cs);
  }

  /** The search for 10.5.0.0/16: window 6 at 3, then 3 at 5, then 1 at 3, stopping at 3. */
  lemma SampleSearch()
    ensures SearchPos(SampleChildren(), Net16(5).Block(), 6, 3) == 3
  {
    var cs, n := SampleChildren(), Net16(5).Block();
    Net16Block(3);
    Net16Block(5);
    Net16Block(6);
    assert SearchPos(cs, n, 0, 3) == 3;
    assert SearchPos(cs, n, 1, 3) == 3;
    assert SearchPos(cs, n, 3, 5) == 3;
  }

  /** `insertInTree` splices 10.5.0.0/16 in at index 4 of the sample children. */
  lemma SampleUtilInsert()
    ensures UtilInserted(EmptyRoot().(children := SampleChildren()), Net16(5)).children
      == SampleChildren()[..4] + [Net16(5)] + SampleChildren()[4..]
  {
    var cs, n := SampleChildren(), Net16(5);
    SampleSearch();
    SampleAt(3);
    Net16Block(3);
    Net16Block(5);
    assert !Contains(cs[3].Block(), n.Block()) && JsEnd(cs[3].Block()) <= n.ip;
  }

  /** Index 4 puts 10.5.0.0/16 before 10.4.0.0/16. */
  lemma SampleMisordered()
    ensures !Sorted(SampleChildren()[..4] + [Net16(5)] + SampleChildren()[4..])
  {
    var u := SampleChildren()[..4] + [Net16(5)] + SampleChildren()[4..];
    assert u[4] == Net16(5) && u[5] == Net16(4);
    Net16Block(5);
    Net16Block(4);
  }

  /**
   * The binary search of `insertInTree` can stop one child short: inserting
   * 10.5.0.0/16 below a root with children 10.0, 10.1, 10.2, 10.3, 10.4 and
   * 10.6 (all /16) places it before 10.4, so the siblings are no longer in
   * address order, while the corrected insert places it after 10.4.
   */
  lemma UtilInsertMisplaces()
    ensures WF(EmptyRoot().(children := SampleChildren())) && Insertable(EmptyRoot().Block(), Net16(5))
    ensures !Sorted(UtilInserted(EmptyRoot().(children := SampleChildren()), Net16(5)).children)
  {
    SampleRootWF();
    Net16Block(5);
    SampleUtilInsert();
    SampleMisordered();
  }

  /** The corrected insert splices 10.5.0.0/16 in at index 5, after 10.4.0.0/16. */
  lemma SampleFixedInsert()
    ensures FixedInserted(EmptyRoot().(children := SampleChildren()), Net16(5)).children
      == SampleChildren()[..5] + [Net16(5)] + SampleChildren()[5..]
  {
    var cs := SampleChildren();
    var n := Net16(5);
    Net16Block(5);
    Net16Block(6);
    forall j | 0 <= j < 5 ensures Precedes(cs[j].Block(), n.Block()) {
      SampleAt(j);
      Net16Block(j);
    }
    PrecedingCountUnique(cs, n.Block(), 5);
  }

  /** On the same input the corrected insert keeps the tree well formed. */
  lemma FixedInsertsInOrder()
    ensures WF(FixedInserted(EmptyRoot().(children := SampleChildren()), Net16(5)))
  {
    var cs := SampleChildren();
    var n := Net16(5);
    SampleRootWF();
    SampleFixedInsert();
    Net16Block(5);
    Net16Block(6);
    forall j | 0 <= j < 5 ensures End(cs[j].Block()) <= n.ip {
      SampleAt(j);
      Net16Block(j);
    }
    SpliceWF(EmptyRoot().(children := cs), 5, n);
  }
}
