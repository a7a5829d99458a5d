/**
 * `safeMerge` of src/tree.js: adjacent children with the same value are
 * replaced by the block spanning them.
 */
module TreeMerge {
  import opened Wrappers
  import opened PrefixMath
  import opened TreeNodes
  import opened TreeFacts
  import opened TreeInsert
  import opened TreeSpan
  import opened Seqs

  /**
   * The forward scan of `safeMerge` (src/tree.js:278-284): from `start`, the
   * run of children that k contains, and whether one of them has a value
   * other than v.
   */
  method ScanForward(cs: seq<Node>, k: Key, v: Option<Value>, start: int) returns (hi: int, bad: bool)
    requires 0 <= start <= |cs|
    ensures start <= hi <= |cs|
    ensures forall j :: start <= j < hi ==> Contains(k, cs[j].Block())
    ensures hi < |cs| ==> !Contains(k, cs[hi].Block())
    ensures bad <==> exists j :: start <= j < hi && cs[j].value != v
  {
    hi, bad := start, false;
    while hi < |cs| && Contains(k, cs[hi].Block())
      invariant start <= hi <= |cs|
      invariant forall j :: start <= j < hi ==> Contains(k, cs[j].Block())
      invariant bad <==> exists j :: start <= j < hi && cs[j].value != v
    {
      if cs[hi].value != v {
        bad := true;
      }
      hi := hi + 1;
    }
  }

  /**
   * The backward scan of `safeMerge` (src/tree.js:286-292): down from
   * `start`, the run of children that k contains; `lo` is the index before it.
   */
  method ScanBackward(cs: seq<Node>, k: Key, v: Option<Value>, start: int) returns (lo: int, bad: bool)
    requires -1 <= start < |cs|
    ensures -1 <= lo <= start
    ensures forall j :: lo < j <= start ==> Contains(k, cs[j].Block())
    ensures lo >= 0 ==> !Contains(k, cs[lo].Block())
    ensures bad <==> exists j :: lo < j <= start && cs[j].value != v
  {
    lo, bad := start, false;
    while lo >= 0 && Contains(k, cs[lo].Block())
      invariant -1 <= lo <= start
      invariant forall j :: lo < j <= start ==> Contains(k, cs[j].Block())
      invariant bad <==> exists j :: lo < j <= start && cs[j].value != v
    {
      if cs[lo].value != v {
        bad := true;
      }
      lo := lo - 1;
    }
  }

  /** The children of c can be the children of any block strictly containing c. */
  lemma ChildrenUnder(k: Key, c: Node)
    requires WF(c) && Inside(k, c.Block())
    ensures WFChildren(k, c.children)
  {
    forall g | 0 <= g < |c.children|
      ensures Inside(k, c.children[g].Block())
    {
      InsideTrans(k, c.Block(), c.children[g].Block());
    }
  }

  /** Dropping a run of children keeps a node well formed. */
  lemma DropRun(n: Node, lo: int, hi: int)
    requires WF(n) && 0 <= lo <= hi <= |n.children|
    ensures WF(n.(children := n.children[..lo] + n.children[hi..]))
  {
    var cs := n.children;
    var rest := cs[..lo] + cs[hi..];
    forall x, y | 0 <= x < y < |rest|
      ensures End(rest[x].Block()) <= rest[y].ip
    {
      KeptAt(cs, lo, hi, x);
      KeptAt(cs, lo, hi, y);
    }
    forall j | 0 <= j < |rest|
      ensures TreeBlock(rest[j].Block()) && Inside(n.Block(), rest[j].Block()) && WF(rest[j])
    {
      KeptAt(cs, lo, hi, j);
    }
  }

  /** The j-th child left after dropping [lo, hi). */
  lemma KeptAt(cs: seq<Node>, lo: int, hi: int, j: int)
    requires 0 <= lo <= hi <= |cs| && 0 <= j < |cs| - (hi - lo)
    ensures 0 <= Kept(lo, hi, j) < |cs| && (cs[..lo] + cs[hi..])[j] == cs[Kept(lo, hi, j)]
  {
  }

  /** The index in the original children of the j-th child kept by `DropRun`. */
  function Kept(lo: int, hi: int, j: int): int {
    if j < lo then j else j - lo + hi
  }

  /** The span of children i and i - 1 is a tree block strictly inside the node. */
  ghost predicate SpanInside(n: Node, i: int)
    requires 1 <= i < |n.children|
  {
    var a, b := n.children[i].Block(), n.children[i - 1].Block();
    a.cidr <= 32 && exists k :: IsSpan(a, b, k) && TreeBlock(k) && Inside(n.Block(), k)
  }

  /**
   * The run a merge at children i - 1 and i sweeps with the span k: the
   * children in (lo, hi) besides the pair are the ones k contains, and the
   * run stops at a child k does not contain or at either end.
   */
  ghost predicate Sweep(cs: seq<Node>, i: int, k: Key, lo: int, hi: int) {
    && -1 <= lo < i - 1 && i < hi <= |cs|
    && (forall j :: lo < j < hi && j != i - 1 && j != i ==> Contains(k, cs[j].Block()))
    && (hi < |cs| ==> !Contains(k, cs[hi].Block()))
    && (lo >= 0 ==> !Contains(k, cs[lo].Block()))
  }

  /** A swept neighbour in (lo, hi) has a value other than v, so the merge is declined. */
  ghost predicate Declines(cs: seq<Node>, i: int, lo: int, hi: int, v: Option<Value>) {
    exists j :: lo < j < hi && 0 <= j < |cs| && j != i - 1 && j != i && cs[j].value != v
  }

  /**
   * The labels below a node after a merge: the subtrees of the children
   * kept, the span's own label, and every label that was strictly below an
   * absorbed child. The absorbed children's own labels are gone.
   */
  ghost function MergedLabels(cs: seq<Node>, lo: int, hi: int, span: Entry): set<Entry>
    requires -1 <= lo < hi <= |cs|
  {
    EntriesSeq(cs[..lo + 1] + cs[hi..]) + {span} + BelowSeq(cs[lo + 1..hi])
  }

  /**
   * `a` becomes `b` by one merge at children i - 1 and i: k is the span of
   * the pair and [lo + 1, hi) the run it sweeps, every swept child has the
   * value of child i, t neighbours are absorbed besides the pair, the header
   * is kept and the list shrinks. When `a` is well formed and k is a tree
   * block inside it, `b` is well formed and holds the labels MergedLabels
   * gives for the span labelled with k and the pair's value.
   */
  ghost predicate MergeStep(a: Node, i: int, k: Key, lo: int, hi: int, b: Node, t: nat)
    requires 1 <= i < |a.children|
  {
    var cs := a.children;
    && cs[i].cidr <= 32 && IsSpan(cs[i].Block(), cs[i - 1].Block(), k) && Sweep(cs, i, k, lo, hi)
    && !Declines(cs, i, lo, hi, cs[i].value)
    && t == hi - lo - 3
    && SameHeader(b, a) && |b.children| + 1 + t <= |cs|
    && (WF(a) && TreeBlock(k) && Inside(a.Block(), k) ==>
          WF(b) && Entries(b) == MergedLabels(cs, lo, hi, Entry(k.ip, k.cidr, Some(k), cs[i].value)))
  }

  /**
   * One merge of `safeMerge` (src/tree.js:274-321) at children i - 1 and i.
   * The span k of the pair decides the run [lo + 1, hi) of neighbours swept;
   * the attempt declines exactly when a swept neighbour has a value other
   * than child i's, and otherwise performs the MergeStep, returning the
   * number of neighbours absorbed besides the pair.
   */
  method MergeAt(n: Node, i: int) returns (r: Result<Option<(Node, nat)>>, ghost inside: bool,
                                          ghost k: Key, ghost lo: int, ghost hi: int)
    requires 1 <= i < |n.children|
    ensures inside <==> SpanInside(n, i)
    ensures n.children[i].cidr > 32 ==> r == Err(OutsideModel)
    ensures n.children[i].cidr <= 32 ==>
      IsSpan(n.children[i].Block(), n.children[i - 1].Block(), k) && Sweep(n.children, i, k, lo, hi)
    ensures (r.Ok? && r.value.None?) <==>
      n.children[i].cidr <= 32 && Declines(n.children, i, lo, hi, n.children[i].value)
    ensures r.Ok? && r.value.Some? ==> MergeStep(n, i, k, lo, hi, r.value.value.0, r.value.value.1)
    ensures r.Ok? && r.value.Some? ==>
      SameHeader(r.value.value.0, n) && |r.value.value.0.children| + 1 + r.value.value.1 <= |n.children|
    ensures WF(n) && inside ==> r.Ok? && (r.value.Some? ==> WF(r.value.value.0))
  {
    var cs := n.children;
    if cs[i].cidr > 32 {
      return Err(OutsideModel), false, Key(0, 0), -1, |cs|;
    }
    var merged := Span(cs[i], cs[i - 1]);
    var span := merged.Block();
    k := span;
    inside := TreeBlock(span) && Inside(n.Block(), span);
    SpanInsideIff(n, i, span);
    var last, bad1 := ScanForward(cs, span, merged.value, i + 1);
    var first, bad2 := ScanBackward(cs, span, merged.value, i - 2);
    lo, hi := first, last;
    if bad1 || bad2 {
      return Ok(None), inside, k, lo, hi;
    }
    r := Absorb(n, i, merged, first, last);
  }

  /** SpanInside is decided by the block `span` returns. */
  lemma SpanInsideIff(n: Node, i: int, k: Key)
    requires 1 <= i < |n.children| && n.children[i].cidr <= 32
    requires IsSpan(n.children[i].Block(), n.children[i - 1].Block(), k)
    ensures SpanInside(n, i) <==> TreeBlock(k) && Inside(n.Block(), k)
  {
    var a, b := n.children[i].Block(), n.children[i - 1].Block();
    if SpanInside(n, i) {
      var k' :| IsSpan(a, b, k') && TreeBlock(k') && Inside(n.Block(), k');
      SpanUnique(a, b, k', k);
    }
  }

  /**
   * The merge itself (src/tree.js:295-320): the pair and the covered
   * neighbours [lo + 1, hi) leave the children, their children go below the
   * merged block (the pair's first, then the forward neighbours', then the
   * backward ones' in the order they were found), and the merged block is
   * inserted into the node. On a well-formed node whose span is a tree block
   * inside it and sweeps exactly [lo + 1, hi), the labels become MergedLabels.
   */
  method Absorb(n: Node, i: int, merged: Node, lo: int, hi: int) returns (r: Result<Option<(Node, nat)>>)
    requires -1 <= lo < i - 1 && i < hi <= |n.children|
    requires forall j :: lo < j < hi && j != i - 1 && j != i ==> Contains(merged.Block(), n.children[j].Block())
    requires merged.children == []
    ensures r.Ok? ==> (r.value.Some? && SameHeader(r.value.value.0, n) &&
      |r.value.value.0.children| + 1 + r.value.value.1 <= |n.children| && r.value.value.1 == hi - lo - 3)
    ensures (WF(n) && Covers(merged.Block(), n.children[i].Block(), n.children[i - 1].Block()) &&
      TreeBlock(merged.Block()) && Inside(n.Block(), merged.Block())) ==> r.Ok? && WF(r.value.value.0)
    ensures (WF(n) && Covers(merged.Block(), n.children[i].Block(), n.children[i - 1].Block()) &&
      TreeBlock(merged.Block()) && Inside(n.Block(), merged.Block()) && Sweep(n.children, i, merged.Block(), lo, hi)) ==>
      r.Ok? && Entries(r.value.value.0) == MergedLabels(n.children, lo, hi, Label(merged))
  {
    var cs, k := n.children, merged.Block();
    ghost var hyp := WF(n) && Covers(k, cs[i].Block(), cs[i - 1].Block()) && TreeBlock(k) && Inside(n.Block(), k);
    ghost var swept := hyp && Sweep(cs, i, k, lo, hi);
    var m :- GatherChildren(n, i, merged, lo, hi);
    if hyp {
      DropRun(n, lo + 1, hi);
    }
    var rest := n.(children := cs[..lo + 1] + cs[hi..]);
    var result := InsertInTree(rest, m);
    if swept {
      AbsorbDone(n, i, merged, lo, hi, m, result);
    }
    var grown :- result;
    return Ok(Some((grown, (hi - i - 1) + (i - 2 - lo))));
  }

  /** Inserting the merged block into the node without the swept run gives MergedLabels. */
  lemma AbsorbDone(n: Node, i: int, merged: Node, lo: int, hi: int, m: Node, result: Result<Node>)
    requires WF(n) && 1 <= i < |n.children|
    requires Covers(merged.Block(), n.children[i].Block(), n.children[i - 1].Block())
    requires TreeBlock(merged.Block()) && Inside(n.Block(), merged.Block()) && Sweep(n.children, i, merged.Block(), lo, hi)
    requires WF(n.(children := n.children[..lo + 1] + n.children[hi..]))
    requires WF(m) && SameHeader(m, merged) && Entries(m) == BelowSeq(n.children[lo + 1..hi])
    requires var rest := n.(children := n.children[..lo + 1] + n.children[hi..]);
      (CanInsert(rest, m) && BlocksDisjoint(Entries(m), Entries(rest))) ==>
      result.Ok? && Entries(result.value) == Without(Entries(rest), m.Block()) + EntriesSelf(m)
    ensures result.Ok? && Entries(result.value) == MergedLabels(n.children, lo, hi, Label(merged))
  {
    var rest := n.(children := n.children[..lo + 1] + n.children[hi..]);
    KeptLabelsApart(n, i, merged.Block(), lo, hi, m);
    assert CanInsert(rest, m);
    assert Label(m) == Label(merged);
  }

  /**
   * The children of the pair, then those of the forward neighbours, then
   * those of the backward ones, go below the merged block
   * (src/tree.js:301-302, 311-318). On a well-formed node whose span covers
   * them, its labels are exactly the labels that were below the swept run.
   */
  method GatherChildren(n: Node, i: int, merged: Node, lo: int, hi: int) returns (r: Result<Node>)
    requires -1 <= lo < i - 1 && i < hi <= |n.children|
    requires forall j :: lo < j < hi && j != i - 1 && j != i ==> Contains(merged.Block(), n.children[j].Block())
    requires merged.children == []
    ensures r.Ok? ==> SameHeader(r.value, merged)
    ensures (WF(n) && Covers(merged.Block(), n.children[i].Block(), n.children[i - 1].Block()) &&
      TreeBlock(merged.Block())) ==> r.Ok? && WF(r.value) && Entries(r.value) == BelowSeq(n.children[lo + 1..hi])
  {
    var cs, k := n.children, merged.Block();
    ghost var hyp := WF(n) && Covers(k, cs[i].Block(), cs[i - 1].Block()) && TreeBlock(k);
    var first := GatherPair(n, i, merged, lo, hi);
    var m :- first;
    if hyp {
      assert Gatherable(n, m.Block(), lo, i, hi);
    }
    r := GatherNeighbours(n, i, lo, hi, m);
    if hyp {
      GatherEnd(n, lo, i, hi, hi - lo - 3, r.value);
    }
  }

  /** The children of the pair go below the merged block first (src/tree.js:301-302). */
  method GatherPair(n: Node, i: int, merged: Node, lo: int, hi: int) returns (r: Result<Node>)
    requires -1 <= lo < i - 1 && i < hi <= |n.children|
    requires merged.children == []
    ensures r.Ok? ==> SameHeader(r.value, merged)
    ensures (WF(n) && Covers(merged.Block(), n.children[i].Block(), n.children[i - 1].Block()) &&
      TreeBlock(merged.Block())) ==> r.Ok? && Gathered(n, lo, i, hi, 0, r.value)
  {
    r := InsertAllInTree(merged.(children := n.children[i - 1].children), n.children[i].children);
    if WF(n) && Covers(merged.Block(), n.children[i].Block(), n.children[i - 1].Block()) && TreeBlock(merged.Block()) {
      GatherStart(n, i, lo, hi, merged, r);
    }
  }

  /** The children of the swept neighbours, forward ones first, go below `m` one neighbour at a time. */
  method GatherNeighbours(n: Node, i: int, lo: int, hi: int, m0: Node) returns (r: Result<Node>)
    requires -1 <= lo < i - 1 && i < hi <= |n.children|
    ensures r.Ok? ==> SameHeader(r.value, m0)
    ensures Gatherable(n, m0.Block(), lo, i, hi) && Gathered(n, lo, i, hi, 0, m0) ==>
      r.Ok? && Gathered(n, lo, i, hi, hi - lo - 3, r.value)
  {
    var cs, k := n.children, m0.Block();
    ghost var hyp := Gatherable(n, k, lo, i, hi) && Gathered(n, lo, i, hi, 0, m0);
    var tomerge := Tomerge(cs, lo, i, hi);
    var m, t := m0, 0;
    while t < hi - lo - 3
      invariant t <= hi - lo - 3
      invariant SameHeader(m, m0)
      invariant hyp ==> Gathered(n, lo, i, hi, t, m)
    {
      var c := tomerge[t];
      var next := InsertAllInTree(m, c.children);
      if hyp {
        GatherStep(n, k, lo, i, hi, t, m, c, next);
      }
      m :- next;
      t := t + 1;
    }
    return Ok(m);
  }

  /**
   * After t neighbours, the merged block is well formed and holds the labels
   * below the pair and below the first t neighbours of `Tomerge`.
   */
  ghost predicate Gathered(n: Node, lo: int, i: int, hi: int, t: nat, m: Node) {
    && -1 <= lo < i - 1 && i < hi <= |n.children| && t <= hi - lo - 3
    && WF(m) && Entries(m) == BelowSeq(n.children[i - 1..i + 1]) + BelowSeq(Tomerge(n.children, lo, i, hi)[..t])
  }

  /** After every neighbour, the merged block holds all the labels below the swept run. */
  lemma GatherEnd(n: Node, lo: int, i: int, hi: int, t: nat, m: Node)
    requires -1 <= lo < i - 1 && i < hi <= |n.children| && t == hi - lo - 3 && Gathered(n, lo, i, hi, t, m)
    ensures WF(m) && Entries(m) == BelowSeq(n.children[lo + 1..hi])
  {
    var tomerge := Tomerge(n.children, lo, i, hi);
    assert tomerge[..hi - lo - 3] == tomerge;
    GatheredAll(n.children, lo, i, hi);
  }

  /**
   * The swept neighbours in the order their children are gathered: the
   * forward ones left to right, then the backward ones right to left
   * (src/tree.js:311-318); every swept neighbour appears once.
   */
  function Tomerge(cs: seq<Node>, lo: int, i: int, hi: int): (r: seq<Node>)
    requires -1 <= lo < i - 1 && i < hi <= |cs|
    ensures |r| == hi - lo - 3
  {
    cs[i + 1..hi] + Reversed(cs[lo + 1..i - 1])
  }

  /** The pair's children go below the merged block first. */
  lemma GatherStart(n: Node, i: int, lo: int, hi: int, merged: Node, first: Result<Node>)
    requires WF(n) && -1 <= lo < i - 1 && i < hi <= |n.children|
    requires Covers(merged.Block(), n.children[i].Block(), n.children[i - 1].Block()) && TreeBlock(merged.Block())
    requires var m := merged.(children := n.children[i - 1].children);
      WF(m) && WFChildren(m.Block(), n.children[i].children) ==> first.Ok? && WF(first.value)
    requires var m := merged.(children := n.children[i - 1].children);
      (WF(m) && WFChildren(m.Block(), n.children[i].children) &&
       BlocksDisjoint(Entries(m), EntriesSeq(n.children[i].children))) ==>
      first.Ok? && Entries(first.value) == Entries(m) + EntriesSeq(n.children[i].children)
    ensures first.Ok? && Gathered(n, lo, i, hi, 0, first.value)
  {
    MergedCovers(n, i, merged.Block());
    PairDisjoint(n, i);
    var tomerge := Tomerge(n.children, lo, i, hi);
    assert tomerge[..0] == [];
  }

  /** The setting of a merge on a well-formed node whose span k covers the swept neighbours. */
  ghost predicate Gatherable(n: Node, k: Key, lo: int, i: int, hi: int) {
    && WF(n) && TreeBlock(k) && -1 <= lo < i - 1 && i < hi <= |n.children|
    && forall j :: lo < j < hi && j != i - 1 && j != i ==> Contains(k, n.children[j].Block())
  }

  /** The t-th neighbour's children go below the merged block. */
  lemma GatherStep(n: Node, k: Key, lo: int, i: int, hi: int, t: nat, m: Node, c: Node, next: Result<Node>)
    requires Gatherable(n, k, lo, i, hi) && t < hi - lo - 3
    requires c == Tomerge(n.children, lo, i, hi)[t]
    requires Gathered(n, lo, i, hi, t, m) && m.Block() == k
    requires WF(m) && WFChildren(m.Block(), c.children) ==> next.Ok? && WF(next.value)
    requires (WF(m) && WFChildren(m.Block(), c.children) && BlocksDisjoint(Entries(m), EntriesSeq(c.children))) ==>
      next.Ok? && Entries(next.value) == Entries(m) + EntriesSeq(c.children)
    ensures next.Ok? && Gathered(n, lo, i, hi, t + 1, next.value)
  {
    var cs := n.children;
    var tomerge := Tomerge(cs, lo, i, hi);
    MergeOrder(cs, lo, i, hi, t);
    MemberCovered(n, k, lo, i, hi, MergeIndex(i, hi, t));
    GatherDisjoint(n, lo, i, hi, t);
    BelowSnoc(tomerge, t);
  }

  /** The children of the pair share no block, and the labels below them are the two subtrees'. */
  lemma PairDisjoint(n: Node, i: int)
    requires WF(n) && 1 <= i < |n.children|
    ensures BlocksDisjoint(Entries(n.children[i - 1]), EntriesSeq(n.children[i].children))
    ensures BelowSeq(n.children[i - 1..i + 1]) == Entries(n.children[i - 1]) + Entries(n.children[i])
  {
    var cs := n.children;
    SiblingsDisjoint(n.Block(), cs, i - 1, i);
    assert Entries(cs[i - 1]) <= EntriesSelf(cs[i - 1]);
    assert EntriesSeq(cs[i].children) <= EntriesSelf(cs[i]);
    BelowPair(cs[i - 1..i + 1]);
  }

  lemma BelowPair(pair: seq<Node>)
    requires |pair| == 2
    ensures BelowSeq(pair) == Entries(pair[0]) + Entries(pair[1])
  {
    assert pair[1..][0] == pair[1] && pair[1..][1..] == [];
    assert BelowSeq(pair[1..]) == Entries(pair[1]) + BelowSeq(pair[1..][1..]);
  }

  /** Two different children of a well-formed node have no block in common below them. */
  lemma SiblingApart(n: Node, a: int, b: int, x: Entry, y: Entry)
    requires WF(n) && 0 <= a < |n.children| && 0 <= b < |n.children| && a != b
    requires x in Entries(n.children[a]) && y in Entries(n.children[b])
    ensures EntryBlock(x) != EntryBlock(y)
  {
    if a < b {
      SiblingsDisjoint(n.Block(), n.children, a, b);
    } else {
      SiblingsDisjoint(n.Block(), n.children, b, a);
    }
  }

  /** The t-th neighbour to merge shares no block with what the merged block holds so far. */
  lemma GatherDisjoint(n: Node, lo: int, i: int, hi: int, t: nat)
    requires WF(n) && -1 <= lo < i - 1 && i < hi <= |n.children| && t < hi - lo - 3
    ensures var tomerge := Tomerge(n.children, lo, i, hi);
      BlocksDisjoint(BelowSeq(n.children[i - 1..i + 1]) + BelowSeq(tomerge[..t]),
                     Entries(n.children[MergeIndex(i, hi, t)]))
  {
    PairApart(n, lo, i, hi, t);
    EarlierApart(n, lo, i, hi, t);
  }

  /** The t-th neighbour to merge shares no block with what the pair brought. */
  lemma PairApart(n: Node, lo: int, i: int, hi: int, t: nat)
    requires WF(n) && -1 <= lo < i - 1 && i < hi <= |n.children| && t < hi - lo - 3
    ensures BlocksDisjoint(BelowSeq(n.children[i - 1..i + 1]), Entries(n.children[MergeIndex(i, hi, t)]))
  {
    var cs := n.children;
    var j := MergeIndex(i, hi, t);
    BelowPair(cs[i - 1..i + 1]);
    ChildrenApart(n, i - 1, j);
    ChildrenApart(n, i, j);
    UnionApart(Entries(cs[i - 1]), Entries(cs[i]), Entries(cs[j]));
  }

  /** Two different children of a well-formed node have no block in common below them. */
  lemma ChildrenApart(n: Node, a: int, b: int)
    requires WF(n) && 0 <= a < |n.children| && 0 <= b < |n.children| && a != b
    ensures BlocksDisjoint(Entries(n.children[a]), Entries(n.children[b]))
  {
    forall x, y | x in Entries(n.children[a]) && y in Entries(n.children[b])
      ensures EntryBlock(x) != EntryBlock(y)
    {
      SiblingApart(n, a, b, x, y);
    }
  }

  lemma UnionApart(a: set<Entry>, b: set<Entry>, c: set<Entry>)
    requires BlocksDisjoint(a, c) && BlocksDisjoint(b, c)
    ensures BlocksDisjoint(a + b, c)
  {
  }

  /** The t-th neighbour to merge shares no block with what the neighbours before it brought. */
  lemma EarlierApart(n: Node, lo: int, i: int, hi: int, t: nat)
    requires WF(n) && -1 <= lo < i - 1 && i < hi <= |n.children| && t < hi - lo - 3
    ensures var tomerge := Tomerge(n.children, lo, i, hi);
      BlocksDisjoint(BelowSeq(tomerge[..t]), Entries(n.children[MergeIndex(i, hi, t)]))
  {
    var cs := n.children;
    var tomerge := Tomerge(cs, lo, i, hi);
    var j := MergeIndex(i, hi, t);
    MergeOrder(cs, lo, i, hi, t);
    forall x, y | x in BelowSeq(tomerge[..t]) && y in Entries(cs[j])
      ensures EntryBlock(x) != EntryBlock(y)
    {
      var p := BelowSeqMember(tomerge[..t], x);
      MergeOrder(cs, lo, i, hi, p);
      assert tomerge[..t][p] == tomerge[p];
      SiblingApart(n, MergeIndex(i, hi, p), j, x, y);
    }
  }

  /** Extending a prefix by one member adds the labels below it. */
  lemma BelowSnoc(s: seq<Node>, t: nat)
    requires t < |s|
    ensures BelowSeq(s[..t + 1]) == BelowSeq(s[..t]) + EntriesSeq(s[t].children)
  {
    assert s[..t + 1] == s[..t] + [s[t]];
    BelowSeqAppend(s[..t], [s[t]]);
    assert [s[t]][1..] == [];
  }

  /** Reversing a list keeps the labels below it. */
  lemma {:induction false} BelowSeqReversed(s: seq<Node>)
    ensures BelowSeq(Reversed(s)) == BelowSeq(s)
  {
    if s != [] {
      BelowSeqReversed(s[1..]);
      BelowSeqAppend(Reversed(s[1..]), [s[0]]);
      assert [s[0]][1..] == [];
    }
  }

  /** The pair and the order `Tomerge` lists the neighbours in cover the swept run. */
  lemma GatheredAll(cs: seq<Node>, lo: int, i: int, hi: int)
    requires -1 <= lo < i - 1 && i < hi <= |cs|
    ensures BelowSeq(cs[i - 1..i + 1]) + BelowSeq(Tomerge(cs, lo, i, hi)) ==
      BelowSeq(cs[lo + 1..hi])
  {
    SliceSplit(cs, i - 1, i + 1, hi);
    SliceSplit(cs, lo + 1, i - 1, hi);
    BelowSeqAppend(cs[i + 1..hi], Reversed(cs[lo + 1..i - 1]));
    BelowSeqReversed(cs[lo + 1..i - 1]);
    BelowSeqAppend(cs[lo + 1..i - 1], cs[i - 1..i + 1] + cs[i + 1..hi]);
    BelowSeqAppend(cs[i - 1..i + 1], cs[i + 1..hi]);
  }

  /**
   * A child the span does not sweep lies wholly before or wholly after the
   * span: the scans stop at blocks that are not inside it, and aligned
   * blocks are nested or disjoint.
   */
  lemma KeptApart(n: Node, i: int, k: Key, lo: int, hi: int, j: int)
    requires WF(n) && TreeBlock(k) && -1 <= lo < i - 1 && i < hi <= |n.children|
    requires lo >= 0 ==> !Contains(k, n.children[lo].Block())
    requires hi < |n.children| ==> !Contains(k, n.children[hi].Block())
    requires Contains(k, n.children[i].Block()) && Contains(k, n.children[i - 1].Block())
    requires 0 <= j <= lo || hi <= j < |n.children|
    ensures End(n.children[j].Block()) <= k.ip || End(k) <= n.children[j].ip
  {
    var cs := n.children;
    if j <= lo {
      assert TreeBlock(cs[lo].Block()) && End(cs[lo].Block()) <= cs[i - 1].ip;
      BlockBefore(cs[lo].Block(), cs[i - 1].Block(), k);
      SortedBefore(cs, j, lo, k.ip);
    } else {
      assert TreeBlock(cs[hi].Block()) && TreeBlock(cs[i].Block()) && End(cs[i].Block()) <= cs[hi].ip;
      BlockAfter(cs[hi].Block(), cs[i].Block(), k);
      SortedAfter(cs, hi, j, End(k));
    }
  }

  /** In a sorted list, a member up to index lo ends where member lo ends or earlier. */
  lemma SortedBefore(cs: seq<Node>, j: int, lo: int, bound: int)
    requires Sorted(cs) && 0 <= j <= lo < |cs| && End(cs[lo].Block()) <= bound
    ensures End(cs[j].Block()) <= bound
  {
    if j < lo {
      assert End(cs[j].Block()) <= cs[lo].ip;
    }
  }

  /** In a sorted list, a member from index hi on starts where member hi starts or later. */
  lemma SortedAfter(cs: seq<Node>, hi: int, j: int, bound: int)
    requires Sorted(cs) && 0 <= hi <= j < |cs| && bound <= cs[hi].ip
    ensures bound <= cs[j].ip
  {
    if j > hi {
      assert End(cs[hi].Block()) <= cs[j].ip;
    }
  }

  /** A block ending before a member of the span, and not inside the span, ends before the span. */
  lemma BlockBefore(c: Key, b: Key, k: Key)
    requires TreeBlock(c) && TreeBlock(k) && End(c) <= b.ip && Contains(k, b) && !Contains(k, c)
    ensures c.ip < End(c) <= k.ip
  {
    if k.cidr <= c.cidr {
      NestedOrDisjoint(k, c);
    } else {
      NestedOrDisjoint(c, k);
    }
  }

  /** A block starting after a member of the span, and not inside the span, starts after the span. */
  lemma BlockAfter(c: Key, a: Key, k: Key)
    requires TreeBlock(c) && TreeBlock(a) && TreeBlock(k) && End(a) <= c.ip && Contains(k, a) && !Contains(k, c)
    ensures End(k) <= c.ip < End(c)
  {
    if k.cidr <= c.cidr {
      NestedOrDisjoint(k, c);
    } else {
      NestedOrDisjoint(c, k);
    }
  }

  /**
   * The labels of the children kept lie outside the span: none has its
   * block, and none shares a block with a node below it.
   */
  lemma KeptLabelsApart(n: Node, i: int, k: Key, lo: int, hi: int, m: Node)
    requires WF(n) && 1 <= i < |n.children|
    requires Covers(k, n.children[i].Block(), n.children[i - 1].Block())
    requires TreeBlock(k) && Sweep(n.children, i, k, lo, hi)
    requires WF(m) && m.Block() == k
    ensures BlocksDisjoint(Entries(m), EntriesSeq(n.children[..lo + 1] + n.children[hi..]))
    ensures Without(EntriesSeq(n.children[..lo + 1] + n.children[hi..]), k) ==
      EntriesSeq(n.children[..lo + 1] + n.children[hi..])
  {
    var cs := n.children;
    var rest := cs[..lo + 1] + cs[hi..];
    forall y | y in EntriesSeq(rest)
      ensures y.ip < End(EntryBlock(y)) && (End(EntryBlock(y)) <= k.ip || End(k) <= y.ip)
    {
      KeptLabelApart(n, i, k, lo, hi, y);
    }
    forall x, y | x in Entries(m) && y in EntriesSeq(rest)
      ensures EntryBlock(x) != EntryBlock(y)
    {
      EntriesInside(m, x);
    }
    WithoutNone(EntriesSeq(rest), k);
  }

  /** One label of the children kept lies wholly before or after the span. */
  lemma KeptLabelApart(n: Node, i: int, k: Key, lo: int, hi: int, y: Entry)
    requires WF(n) && TreeBlock(k) && Sweep(n.children, i, k, lo, hi)
    requires Contains(k, n.children[i].Block()) && Contains(k, n.children[i - 1].Block())
    requires y in EntriesSeq(n.children[..lo + 1] + n.children[hi..])
    ensures y.ip < End(EntryBlock(y)) && (End(EntryBlock(y)) <= k.ip || End(k) <= y.ip)
  {
    var cs := n.children;
    EntriesSeqAppend(cs[..lo + 1], cs[hi..]);
    var j: int;
    if y in EntriesSeq(cs[..lo + 1]) {
      var p := EntriesSeqMember(cs[..lo + 1], y);
      assert cs[..lo + 1][p] == cs[p];
      j := p;
    } else {
      j := SuffixMember(cs, hi, y);
    }
    SiblingWithin(n.Block(), cs, j, y);
    KeptApart(n, i, k, lo, hi, j);
  }

  /** A sequence in reverse order. */
  function Reversed(s: seq<Node>): (r: seq<Node>)
    ensures |r| == |s|
  {
    if s == [] then [] else Reversed(s[1..]) + [s[0]]
  }

  /** The j-th member of the reversed sequence is the j-th from the end. */
  lemma {:induction false} ReversedAt(s: seq<Node>, j: int)
    requires 0 <= j < |s|
    ensures Reversed(s)[j] == s[|s| - 1 - j]
  {
    if j < |s| - 1 {
      ReversedAt(s[1..], j);
    }
  }

  /** The merged block strictly contains both nodes of the pair, so the merged node starts well formed. */
  lemma MergedCovers(n: Node, i: int, k: Key)
    requires WF(n) && 1 <= i < |n.children|
    requires Covers(k, n.children[i].Block(), n.children[i - 1].Block()) && TreeBlock(k)
    ensures WFChildren(k, n.children[i - 1].children) && WFChildren(k, n.children[i].children)
  {
    var a, b := n.children[i], n.children[i - 1];
    ContainsInside(k, a.Block());
    ContainsInside(k, b.Block());
    ChildrenUnder(k, a);
    ChildrenUnder(k, b);
  }

  /** Where the t-th neighbour to merge sits: first the forward ones, then the backward ones nearest first. */
  function MergeIndex(i: int, hi: int, t: int): int {
    if t < hi - i - 1 then i + 1 + t else i - 2 - (t - (hi - i - 1))
  }

  /** The t-th entry of `Tomerge` is the child at MergeIndex, a swept neighbour. */
  lemma MergeOrder(cs: seq<Node>, lo: int, i: int, hi: int, t: nat)
    requires -1 <= lo < i - 1 && i < hi <= |cs| && t < (hi - i - 1) + (i - 2 - lo)
    ensures var j := MergeIndex(i, hi, t);
      (lo + 1 <= j < i - 1 || i + 1 <= j < hi) && Tomerge(cs, lo, i, hi)[t] == cs[j]
  {
    var fwd := hi - i - 1;
    if t >= fwd {
      ReversedAt(cs[lo + 1..i - 1], t - fwd);
    }
  }

  /** A neighbour the merged block covers has children that fit below it. */
  lemma MemberCovered(n: Node, k: Key, lo: int, i: int, hi: int, j: int)
    requires WF(n) && TreeBlock(k) && -1 <= lo < i - 1 && i < hi <= |n.children|
    requires forall j :: lo < j < hi && j != i - 1 && j != i ==> Contains(k, n.children[j].Block())
    requires lo + 1 <= j < i - 1 || i + 1 <= j < hi
    ensures WFChildren(k, n.children[j].children)
  {
    var c := n.children[j];
    ContainsInside(k, c.Block());
    ChildrenUnder(k, c);
  }

  /** `b` is `a` after one merge at a pair of adjacent children with equal values. */
  ghost predicate Merges(a: Node, b: Node) {
    exists i, k, lo, hi, t ::
      1 <= i < |a.children| && a.children[i].value == a.children[i - 1].value && MergeStep(a, i, k, lo, hi, b, t)
  }

  /** `steps` runs from `node` to `cur` by nm merges. */
  ghost predicate MergeTrace(steps: seq<Node>, node: Node, cur: Node, nm: nat) {
    && |steps| == nm + 1 && steps[0] == node && steps[nm] == cur
    && forall p :: 0 <= p < nm ==> Merges(steps[p], steps[p + 1])
  }

  lemma TraceExtend(steps: seq<Node>, node: Node, cur: Node, nm: nat, next: Node)
    requires MergeTrace(steps, node, cur, nm) && Merges(cur, next)
    ensures MergeTrace(steps + [next], node, next, nm + 1)
  {
    var s := steps + [next];
    forall p | 0 <= p < nm + 1
      ensures Merges(s[p], s[p + 1])
    {
      if p < nm {
        assert s[p] == steps[p] && s[p + 1] == steps[p + 1];
      } else {
        assert s[p] == cur && s[p + 1] == next;
      }
    }
  }

  /** A merge attempt of `safeMerge`: children q.1 - 1 and q.1 of q.0 have equal values. */
  ghost predicate Attempt(q: (Node, int)) {
    1 <= q.1 < |q.0.children| && q.0.children[q.1].value == q.0.children[q.1 - 1].value
  }

  /** The merge at children i - 1 and i of n is declined: a neighbour its span sweeps has another value. */
  ghost predicate Declined(n: Node, i: int)
    requires 1 <= i < |n.children|
  {
    n.children[i].cidr <= 32 && exists k, lo, hi ::
      IsSpan(n.children[i].Block(), n.children[i - 1].Block(), k) && Sweep(n.children, i, k, lo, hi)
      && Declines(n.children, i, lo, hi, n.children[i].value)
  }

  /**
   * `safeMerge` (src/tree.js:266-325): walks the children from the second
   * one; each child with the value of its predecessor is merged with it and
   * whatever else their span covers, unless a covered neighbour has another
   * value, and the walk steps back by the number of children removed. The
   * result is the node and the number of merges, which the ghost `steps`
   * lists one MergeStep at a time. `parentValue` is not read. The ghost
   * `tried` lists the attempts made, each an equal-valued pair of a node on
   * the trace, and `inside` records that the span of every one of them was
   * a tree block strictly inside that node; a span that falls back to a
   * short prefix (possible under the root) is not, and the merged block may
   * then break the tree's order. A walk that merges nothing tried every
   * equal-valued pair of the node and was declined at each.
   */
  method SafeMerge(node: Node, parentValue: Option<Value>)
    returns (r: Result<(Node, nat)>, ghost inside: bool, ghost steps: seq<Node>, ghost tried: seq<(Node, int)>)
    ensures r.Ok? ==> SameHeader(r.value.0, node) && |r.value.0.children| + r.value.1 <= |node.children|
    ensures r.Ok? ==> MergeTrace(steps, node, r.value.0, r.value.1)
    ensures r.Ok? && r.value.1 == 0 ==> r.value.0 == node
    ensures (forall j :: 1 <= j < |node.children| ==> node.children[j].value != node.children[j - 1].value) ==>
      r == Ok((node, 0))
    ensures forall q :: q in tried ==> Attempt(q) && q.0 in steps
    ensures inside <==> forall q :: q in tried ==> Attempt(q) && SpanInside(q.0, q.1)
    ensures r.Ok? && r.value.1 == 0 ==> forall j ::
      1 <= j < |node.children| && node.children[j].value == node.children[j - 1].value ==>
        (node, j) in tried && Declined(node, j)
    ensures WF(node) && inside ==> r.Ok? && WF(r.value.0)
  {
    var cur, nm := node, 0;
    ghost var distinct := forall j :: 1 <= j < |node.children| ==> node.children[j].value != node.children[j - 1].value;
    inside, steps, tried := true, [node], [];
    var i := 1;
    while i < |cur.children|
      invariant SameHeader(cur, node) && |cur.children| + nm <= |node.children|
      invariant MergeTrace(steps, node, cur, nm)
      invariant nm == 0 ==> cur == node
      invariant distinct ==> nm == 0
      invariant WF(node) && inside ==> WF(cur)
      invariant OnTrace(tried, steps) && inside == AllInside(tried)
      invariant nm == 0 ==> DeclinedBelow(node, tried, i)
      decreases |cur.children|, |cur.children| - i
    {
      if i >= 1 && cur.children[i].value == cur.children[i - 1].value {
        var step, ok, k, lo, hi := MergeAt(cur, i);
        TriedStep(tried, steps, cur, i, nm);
        if nm == 0 && step == Ok(None) {
          DeclinedStep(node, tried, i);
        }
        tried := tried + [(cur, i)];
        inside := inside && ok;
        if step.Err? {
          TriedMeaning(tried, steps);
          return Err(step.error), inside, steps, tried;
        }
        if step.value.Some? {
          var (next, t) := step.value.value;
          assert MergeStep(cur, i, k, lo, hi, next, t);
          TraceExtend(steps, node, cur, nm, next);
          OnTraceGrow(tried, steps, next);
          steps := steps + [next];
          cur, nm := next, nm + 1;
          i := i - (1 + t);
        }
      } else if nm == 0 {
        DeclinedSkip(node, tried, i);
      }
      i := i + 1;
    }
    TriedMeaning(tried, steps);
    return Ok((cur, nm)), inside, steps, tried;
  }

  /** Every attempt in `tried` is an equal-valued pair of a node in `steps`. */
  ghost predicate OnTrace(tried: seq<(Node, int)>, steps: seq<Node>)
    decreases |tried|
  {
    tried == [] || (OnTrace(tried[..|tried| - 1], steps) && Attempt(tried[|tried| - 1]) && tried[|tried| - 1].0 in steps)
  }

  /** The span of every attempt in `tried` was a tree block strictly inside its node. */
  ghost predicate AllInside(tried: seq<(Node, int)>)
    decreases |tried|
  {
    tried == [] || (AllInside(tried[..|tried| - 1]) && Attempt(tried[|tried| - 1]) && SpanInside(tried[|tried| - 1].0, tried[|tried| - 1].1))
  }

  /** Recording the attempt at children i - 1 and i of the last node on the trace. */
  lemma TriedStep(tried: seq<(Node, int)>, steps: seq<Node>, cur: Node, i: int, nm: nat)
    requires OnTrace(tried, steps) && |steps| == nm + 1 && steps[nm] == cur
    requires 1 <= i < |cur.children| && cur.children[i].value == cur.children[i - 1].value
    ensures OnTrace(tried + [(cur, i)], steps)
    ensures AllInside(tried + [(cur, i)]) == (AllInside(tried) && SpanInside(cur, i))
  {
    assert (tried + [(cur, i)])[..|tried|] == tried;
  }

  /** A longer trace keeps every attempt on it. */
  lemma {:induction false} OnTraceGrow(tried: seq<(Node, int)>, steps: seq<Node>, next: Node)
    requires OnTrace(tried, steps)
    ensures OnTrace(tried, steps + [next])
    decreases |tried|
  {
    if tried != [] {
      OnTraceGrow(tried[..|tried| - 1], steps, next);
    }
  }

  /** The recursive records say what SafeMerge promises about its attempts. */
  lemma {:induction false} TriedMeaning(tried: seq<(Node, int)>, steps: seq<Node>)
    requires OnTrace(tried, steps)
    ensures forall q :: q in tried ==> Attempt(q) && q.0 in steps
    ensures AllInside(tried) <==> forall q :: q in tried ==> Attempt(q) && SpanInside(q.0, q.1)
    decreases |tried|
  {
    if tried != [] {
      var front := tried[..|tried| - 1];
      TriedMeaning(front, steps);
      assert tried == front + [tried[|tried| - 1]];
    }
  }

  /** Every equal-valued pair of node before i was tried and declined. */
  ghost predicate DeclinedBelow(node: Node, tried: seq<(Node, int)>, i: int) {
    forall j :: 1 <= j < i && j < |node.children| && node.children[j].value == node.children[j - 1].value ==>
      (node, j) in tried && Declined(node, j)
  }

  /** A declined attempt at pair i of node extends DeclinedBelow. */
  lemma DeclinedStep(node: Node, tried: seq<(Node, int)>, i: int)
    requires 1 <= i < |node.children| && DeclinedBelow(node, tried, i) && Declined(node, i)
    ensures DeclinedBelow(node, tried + [(node, i)], i + 1)
  {
  }

  /** A pair with different values needs no attempt. */
  lemma DeclinedSkip(node: Node, tried: seq<(Node, int)>, i: int)
    requires DeclinedBelow(node, tried, i)
    requires 1 <= i < |node.children| ==> node.children[i].value != node.children[i - 1].value
    ensures DeclinedBelow(node, tried, i + 1)
  {
  }
}
