/**
 * Insertion into the prefix tree (src/tree.js): `insertInTree`,
 * `insertAllInTree` and `tableToTree`.
 */
module TreeInsert {
  import opened Wrappers
  import opened Arith
  import opened PrefixMath
  import opened TreeNodes
  import opened TreeFacts
  import opened JsObjects
  import opened Seqs

  /**
   * `cs[pos..pos + len]` is the run of children overlapping `n`: the child
   * before it precedes `n`, `n` precedes the child after it, and no child of the
   * run lies after `n`.
   */
  predicate RunOf(cs: seq<Node>, n: Key, pos: nat, len: nat) {
    && pos + len <= |cs|
    && (pos > 0 ==> Precedes(cs[pos - 1].Block(), n))
    && (pos < |cs| ==> !Precedes(cs[pos].Block(), n))
    && (forall j :: pos <= j < pos + len ==> !Precedes(n, cs[j].Block()))
    && (pos + len < |cs| ==> Precedes(n, cs[pos + len].Block()))
  }

  /** Locates the run of children overlapping `n` (src/tree.js:82-111). */
  method FindRun(cs: seq<Node>, n: Key) returns (pos: nat, len: nat)
    ensures RunOf(cs, n, pos, len)
  {
    // the binary search only chooses where the linear scans start
    var width := |cs|;
    var p: int := |cs| / 2;
    while width > 1
      invariant width <= |cs|
      invariant 0 <= p && (p < |cs| || p == 0)
      decreases width
    {
      if Precedes(cs[p].Block(), n) {
        p := p + width / 2;
      } else if Precedes(n, cs[p].Block()) {
        p := p - (width + 1) / 2;
      }
      if p < 0 {
        p := 0;
      } else if p >= |cs| {
        p := |cs| - 1;
      }
      width := (width + 1) / 2;
    }
    while p < |cs| && Precedes(cs[p].Block(), n)
      invariant 0 <= p <= |cs|
    {
      p := p + 1;
    }
    while p > 0 && !Precedes(cs[p - 1].Block(), n)
      invariant 0 <= p <= |cs|
      invariant p < |cs| ==> !Precedes(cs[p].Block(), n)
    {
      p := p - 1;
    }
    pos, len := p, 0;
    while pos + len < |cs| && !Precedes(n, cs[pos + len].Block())
      invariant pos + len <= |cs|
      invariant forall j :: pos <= j < pos + len ==> !Precedes(n, cs[j].Block())
    {
      len := len + 1;
    }
  }

  /** What the containment checks over the run decide. */
  datatype Action = Replace(at: nat) | Descend(at: nat) | Malformed(at: nat) | Splice

  /** `c` belongs below `n`: `n` contains it and not the other way round. */
  predicate Swallowed(n: Key, c: Key) {
    c != n && !Contains(c, n) && Contains(n, c)
  }

  /** `a` is the verdict of the checks made child by child over the run. */
  predicate Classified(cs: seq<Node>, n: Key, pos: nat, len: nat, a: Action)
    requires pos + len <= |cs|
  {
    if a.Splice? then
      forall j :: pos <= j < pos + len ==> Swallowed(n, cs[j].Block())
    else
      && pos <= a.at < pos + len
      && (forall j :: pos <= j < a.at ==> Swallowed(n, cs[j].Block()))
      && Verdict(cs[a.at].Block(), n, a)
  }

  /** The check that stopped the loop at child `c`. */
  predicate Verdict(c: Key, n: Key, a: Action) {
    match a
    case Replace(_) => c == n
    case Descend(_) => c != n && Contains(c, n)
    case Malformed(_) => c != n && !Contains(c, n) && !Contains(n, c)
    case Splice => false
  }

  /** The loop over the run in `insertInTree` (src/tree.js:112-130), without its effects. */
  method ClassifyRun(cs: seq<Node>, n: Key, pos: nat, len: nat) returns (a: Action)
    requires pos + len <= |cs|
    ensures Classified(cs, n, pos, len, a)
  {
    var i := 0;
    while i < len
      invariant i <= len
      invariant forall j :: pos <= j < pos + i ==> Swallowed(n, cs[j].Block())
    {
      var c := cs[pos + i].Block();
      if c == n {
        return Replace(pos + i);
      } else if Contains(c, n) {
        return Descend(pos + i);
      } else if !Contains(n, c) {
        return Malformed(pos + i);
      }
      i := i + 1;
    }
    return Splice;
  }

  /** Containment between tree blocks is nesting. */
  lemma ContainsInside(p: Key, c: Key)
    requires TreeBlock(p) && TreeBlock(c) && Contains(p, c)
    ensures Inside(p, c)
  {
    NestedOrDisjoint(p, c);
  }

  /** Every child of a run overlaps `n`, so in a well-formed tree it is `n`'s block, contains `n` or lies in `n`. */
  lemma RunOverlaps(root: Node, n: Key, pos: nat, len: nat, j: nat)
    requires WF(root) && TreeBlock(n) && RunOf(root.children, n, pos, len) && pos <= j < pos + len
    ensures var c := root.children[j].Block();
      || c == n
      || (Contains(c, n) && Inside(c, n))
      || (Swallowed(n, c) && Inside(n, c))
  {
    var cs := root.children;
    var c := cs[j].Block();
    assert End(c) > n.ip by {
      if j > pos {
        assert End(cs[pos].Block()) <= cs[j].ip;
      }
    }
    if c.cidr <= n.cidr {
      NestedOrDisjoint(c, n);
      if c.cidr == n.cidr {
        assert c == n;
      }
    } else {
      NestedOrDisjoint(n, c);
    }
  }

  /** In a well-formed tree the run is never malformed, and the verdict nests as expected. */
  lemma RunClassified(root: Node, n: Key, pos: nat, len: nat, a: Action)
    requires WF(root) && TreeBlock(n) && RunOf(root.children, n, pos, len)
    requires Classified(root.children, n, pos, len, a)
    ensures !a.Malformed?
    ensures a.Descend? ==> Inside(root.children[a.at].Block(), n)
    ensures a.Splice? ==> forall j :: pos <= j < pos + len ==> Inside(n, root.children[j].Block())
  {
    if !a.Splice? {
      RunOverlaps(root, n, pos, len, a.at);
    } else {
      forall j | pos <= j < pos + len ensures Inside(n, root.children[j].Block()) {
        RunOverlaps(root, n, pos, len, j);
      }
    }
  }

  /** What `insertInTree(root, node)` needs to succeed and keep the tree well formed. */
  predicate CanInsert(root: Node, node: Node) {
    WF(root) && Insertable(root.Block(), node)
  }

  /**
   * `insertInTree` (src/tree.js:81-144): places `node` below `root`. A child
   * with the same block is replaced by `node`, which takes over its children;
   * a child containing `node` receives it recursively; otherwise `node` takes
   * the place of the run of children it contains, which are inserted below it.
   * A run child that neither contains `node` nor lies in it is a malformed tree.
   */
  method InsertInTree(root: Node, node: Node) returns (r: Result<Node>)
    decreases Size(root) + Size(node), 1
    ensures r.Ok? ==> SameHeader(r.value, root)
    ensures r.Ok? ==> Size(r.value) <= Size(root) + Size(node)
    ensures r.Ok? ==> |r.value.children| <= |root.children| + 1
    ensures CanInsert(root, node) ==> r.Ok? && WF(r.value)
    ensures CanInsert(root, node) && BlocksDisjoint(Entries(node), Entries(root)) ==>
      r.Ok? && Entries(r.value) == Without(Entries(root), node.Block()) + EntriesSelf(node)
  {
    var pos, len := FindRun(root.children, node.Block());
    var action := ClassifyRun(root.children, node.Block(), pos, len);
    if CanInsert(root, node) {
      RunClassified(root, node.Block(), pos, len, action);
    }
    match action
    case Replace(k) =>
      r := ReplaceChild(root, node, k);
    case Descend(k) =>
      r := DescendChild(root, node, k);
    case Malformed(_) =>
      r := Err(MalformedTree);
    case Splice =>
      r := SpliceRun(root, node, pos, len);
  }

  /** Child k has `node`'s block: `node` takes its children and its place (src/tree.js:113-122). */
  method ReplaceChild(root: Node, node: Node, k: nat) returns (r: Result<Node>)
    requires k < |root.children| && root.children[k].Block() == node.Block()
    decreases Size(root) + Size(node), 0
    ensures r.Ok? ==> SameHeader(r.value, root)
    ensures r.Ok? ==> Size(r.value) <= Size(root) + Size(node)
    ensures r.Ok? ==> |r.value.children| == |root.children|
    ensures CanInsert(root, node) ==> r.Ok? && WF(r.value)
    ensures CanInsert(root, node) && BlocksDisjoint(Entries(node), Entries(root)) ==>
      r.Ok? && Entries(r.value) == Without(Entries(root), node.Block()) + EntriesSelf(node)
  {
    var cs := root.children;
    ChildSmaller(root, k);
    if CanInsert(root, node) {
      assert WF(cs[k]);
    }
    if CanInsert(root, node) && BlocksDisjoint(Entries(node), Entries(root)) {
      EntriesSeqHas(cs, k);
    }
    var merged := InsertAllInTree(node, cs[k].children);
    if merged.Err? {
      return merged;
    }
    r := Ok(root.(children := cs[k := merged.value]));
    ReplacedMeasures(cs, k, merged.value);
    if CanInsert(root, node) {
      ReplaceKeepsWF(root, node, k, merged.value);
    }
    if CanInsert(root, node) && BlocksDisjoint(Entries(node), Entries(root)) {
      ReplaceEntries(root, node, k, merged.value);
    }
  }

  /** Child k contains `node`: the insertion continues below it (src/tree.js:123-125). */
  method DescendChild(root: Node, node: Node, k: nat) returns (r: Result<Node>)
    requires k < |root.children|
    requires root.children[k].Block() != node.Block() && Contains(root.children[k].Block(), node.Block())
    decreases Size(root) + Size(node), 0
    ensures r.Ok? ==> SameHeader(r.value, root)
    ensures r.Ok? ==> Size(r.value) <= Size(root) + Size(node)
    ensures r.Ok? ==> |r.value.children| == |root.children|
    ensures CanInsert(root, node) ==> r.Ok? && WF(r.value)
    ensures CanInsert(root, node) && BlocksDisjoint(Entries(node), Entries(root)) ==>
      r.Ok? && Entries(r.value) == Without(Entries(root), node.Block()) + EntriesSelf(node)
  {
    var cs := root.children;
    ChildSmaller(root, k);
    if CanInsert(root, node) {
      assert WF(cs[k]) && TreeBlock(cs[k].Block());
      ContainsInside(cs[k].Block(), node.Block());
    }
    if CanInsert(root, node) && BlocksDisjoint(Entries(node), Entries(root)) {
      EntriesSeqHas(cs, k);
    }
    var sub := InsertInTree(cs[k], node);
    if sub.Err? {
      return sub;
    }
    DescendDone(root, node, k, sub.value);
    r := Ok(root.(children := cs[k := sub.value]));
  }

  /** Putting the grown child k back gives DescendChild's result its properties. */
  lemma DescendDone(root: Node, node: Node, k: nat, x: Node)
    requires k < |root.children|
    requires root.children[k].Block() != node.Block() && Contains(root.children[k].Block(), node.Block())
    requires SameHeader(x, root.children[k]) && Size(x) <= Size(root.children[k]) + Size(node)
    requires CanInsert(root.children[k], node) ==> WF(x)
    requires CanInsert(root.children[k], node) && BlocksDisjoint(Entries(node), Entries(root.children[k])) ==>
      Entries(x) == Without(Entries(root.children[k]), node.Block()) + EntriesSelf(node)
    ensures SameHeader(root.(children := root.children[k := x]), root)
    ensures Size(root.(children := root.children[k := x])) <= Size(root) + Size(node)
    ensures |root.children[k := x]| == |root.children|
    ensures CanInsert(root, node) ==> WF(root.(children := root.children[k := x]))
    ensures CanInsert(root, node) && BlocksDisjoint(Entries(node), Entries(root)) ==>
      Entries(root.(children := root.children[k := x])) == Without(Entries(root), node.Block()) + EntriesSelf(node)
  {
    var cs := root.children;
    ReplacedMeasures(cs, k, x);
    if CanInsert(root, node) {
      assert WF(cs[k]) && TreeBlock(cs[k].Block());
      ContainsInside(cs[k].Block(), node.Block());
      ChildReplacedWF(root, k, x);
      if BlocksDisjoint(Entries(node), Entries(root)) {
        EntriesSeqHas(cs, k);
        DescendEntries(root, node, k, x);
      }
    }
  }

  /**
   * `node` contains every child of the run: it takes the run's place and the
   * run is inserted below it (src/tree.js:132-138).
   */
  method SpliceRun(root: Node, node: Node, pos: nat, len: nat) returns (r: Result<Node>)
    requires RunOf(root.children, node.Block(), pos, len)
    requires forall j :: pos <= j < pos + len ==> Swallowed(node.Block(), root.children[j].Block())
    decreases Size(root) + Size(node), 0
    ensures r.Ok? ==> SameHeader(r.value, root)
    ensures r.Ok? ==> Size(r.value) <= Size(root) + Size(node)
    ensures r.Ok? ==> |r.value.children| == |root.children| + 1 - len
    ensures CanInsert(root, node) ==> r.Ok? && WF(r.value)
    ensures CanInsert(root, node) && BlocksDisjoint(Entries(node), Entries(root)) ==>
      r.Ok? && Entries(r.value) == Without(Entries(root), node.Block()) + EntriesSelf(node)
  {
    var cs := root.children;
    SliceSmaller(cs, pos, len);
    if CanInsert(root, node) {
      RunInside(root, node, pos, len);
    }
    var merged := InsertAllInTree(node, cs[pos..pos + len]);
    if merged.Err? {
      return merged;
    }
    r := Ok(root.(children := cs[..pos] + [merged.value] + cs[pos + len..]));
    SplicedMeasures(cs, pos, len, merged.value);
    if CanInsert(root, node) {
      SpliceKeepsWF(root, node, pos, len, merged.value);
    }
    if CanInsert(root, node) && BlocksDisjoint(Entries(node), Entries(root)) {
      SpliceEntries(root, node, pos, len, merged.value);
    }
  }

  /** The swallowed run is a well-formed child list of `node`. */
  lemma RunInside(root: Node, node: Node, pos: nat, len: nat)
    requires CanInsert(root, node) && pos + len <= |root.children|
    requires forall j :: pos <= j < pos + len ==> Swallowed(node.Block(), root.children[j].Block())
    ensures forall j :: pos <= j < pos + len ==> Inside(node.Block(), root.children[j].Block())
    ensures WFChildren(node.Block(), root.children[pos..pos + len])
  {
    var cs := root.children;
    forall j | pos <= j < pos + len ensures Inside(node.Block(), cs[j].Block()) {
      ContainsInside(node.Block(), cs[j].Block());
    }
    var run := cs[pos..pos + len];
    forall i | 0 <= i < |run| ensures TreeBlock(run[i].Block()) && Inside(node.Block(), run[i].Block()) && WF(run[i]) {
      assert run[i] == cs[pos + i];
    }
    forall i, j | 0 <= i < j < |run| ensures End(run[i].Block()) <= run[j].ip {
      assert run[i] == cs[pos + i] && run[j] == cs[pos + j];
    }
  }

  /**
   * `insertAllInTree` (src/tree.js:72-76): inserts `nodes` below `root` one after
   * the other.
   */
  method InsertAllInTree(root: Node, nodes: seq<Node>) returns (r: Result<Node>)
    decreases Size(root) + SizeSeq(nodes), 2
    ensures r.Ok? ==> SameHeader(r.value, root)
    ensures r.Ok? ==> Size(r.value) <= Size(root) + SizeSeq(nodes)
    ensures WF(root) && WFChildren(root.Block(), nodes) ==> r.Ok? && WF(r.value)
    ensures WF(root) && WFChildren(root.Block(), nodes) && BlocksDisjoint(Entries(root), EntriesSeq(nodes)) ==>
      r.Ok? && Entries(r.value) == Entries(root) + EntriesSeq(nodes)
  {
    ghost var hyp := WF(root) && WFChildren(root.Block(), nodes);
    ghost var ent := hyp && BlocksDisjoint(Entries(root), EntriesSeq(nodes));
    var acc := root;
    var i := 0;
    while i < |nodes|
      invariant i <= |nodes| && InsertedUpTo(root, nodes, i, acc, hyp, ent)
    {
      PrefixStep(nodes, i);
      if hyp {
        NextInsertable(root, nodes, i, acc);
      }
      if ent {
        NextDisjoint(root, nodes, i, acc);
      }
      var t := InsertInTree(acc, nodes[i]);
      if t.Err? {
        return t;
      }
      InsertedStep(root, nodes, i, acc, hyp, ent, t.value);
      acc := t.value;
      i := i + 1;
    }
    assert nodes[..i] == nodes;
    r := Ok(acc);
  }

  /** The loop state of InsertAllInTree after inserting nodes[..i] into root. */
  ghost predicate InsertedUpTo(root: Node, nodes: seq<Node>, i: nat, acc: Node, hyp: bool, ent: bool)
    requires i <= |nodes|
  {
    && SameHeader(acc, root)
    && Size(acc) <= Size(root) + SizeSeq(nodes[..i])
    && (hyp ==> WF(acc))
    && (ent ==> Entries(acc) == Entries(root) + EntriesSeq(nodes[..i]))
  }

  /** The next node of a well-formed list can be inserted into the accumulated tree. */
  lemma NextInsertable(root: Node, nodes: seq<Node>, i: nat, acc: Node)
    requires i < |nodes| && SameHeader(acc, root) && WF(acc) && WFChildren(root.Block(), nodes)
    ensures CanInsert(acc, nodes[i])
  {
    assert acc.Block() == root.Block();
  }

  /** With disjoint labels, the next node shares no block with the accumulated tree. */
  lemma NextDisjoint(root: Node, nodes: seq<Node>, i: nat, acc: Node)
    requires i < |nodes| && WFChildren(root.Block(), nodes)
    requires BlocksDisjoint(Entries(root), EntriesSeq(nodes))
    requires InsertedUpTo(root, nodes, i, acc, true, true)
    ensures BlocksDisjoint(Entries(nodes[i]), Entries(acc))
    ensures Without(Entries(acc), nodes[i].Block()) == Entries(acc)
  {
    EntriesSeqHas(nodes, i);
    EarlierDisjoint(root.Block(), nodes, i);
    NoLabelUnder(acc, root, nodes, i);
  }

  /** One insertion of InsertAllInTree keeps its loop state. */
  lemma InsertedStep(root: Node, nodes: seq<Node>, i: nat, acc: Node, hyp: bool, ent: bool, next: Node)
    requires i < |nodes| && InsertedUpTo(root, nodes, i, acc, hyp, ent)
    requires ent ==> Without(Entries(acc), nodes[i].Block()) == Entries(acc)
    requires SameHeader(next, acc) && Size(next) <= Size(acc) + Size(nodes[i])
    requires hyp ==> WF(next)
    requires ent ==> Entries(next) == Without(Entries(acc), nodes[i].Block()) + EntriesSelf(nodes[i])
    ensures InsertedUpTo(root, nodes, i + 1, next, hyp, ent)
  {
    PrefixStep(nodes, i);
  }

  /** Before step i no label of the accumulated tree has the block of nodes[i]. */
  lemma NoLabelUnder(acc: Node, root: Node, nodes: seq<Node>, i: nat)
    requires i < |nodes|
    requires BlocksDisjoint(Entries(root), EntriesSeq(nodes))
    requires BlocksDisjoint(EntriesSeq(nodes[..i]), EntriesSelf(nodes[i]))
    requires EntriesSelf(nodes[i]) <= EntriesSeq(nodes)
    requires Entries(acc) == Entries(root) + EntriesSeq(nodes[..i])
    ensures BlocksDisjoint(Entries(nodes[i]), Entries(acc))
    ensures Without(Entries(acc), nodes[i].Block()) == Entries(acc)
  {
    var self, acc' := EntriesSelf(nodes[i]), Entries(acc);
    assert Label(nodes[i]) in self;
    assert Entries(nodes[i]) <= self;
    forall x, y | x in self && y in acc'
      ensures EntryBlock(x) != EntryBlock(y)
    {
      if y in Entries(root) {
        assert x in EntriesSeq(nodes);
      } else {
        assert y in EntriesSeq(nodes[..i]);
      }
    }
    WithoutNone(acc', nodes[i].Block());
  }

  /** Measures of `cs[k := x]`. */
  lemma ReplacedMeasures(cs: seq<Node>, k: nat, x: Node)
    requires k < |cs|
    ensures |cs[k := x]| == |cs|
    ensures SizeSeq(cs[k := x]) == SizeSeq(cs) - Size(cs[k]) + Size(x)
    ensures EntriesSeq(cs[k := x]) == EntriesSeq(cs[..k]) + EntriesSelf(x) + EntriesSeq(cs[k + 1..])
  {
    assert cs[k := x] == cs[..k] + [x] + cs[k + 1..];
    SplicedMeasures(cs, k, 1, x);
    assert cs[k..k + 1] == [cs[k]];
    Singleton(cs[k]);
  }

  lemma ReplaceKeepsWF(root: Node, node: Node, k: nat, x: Node)
    requires CanInsert(root, node) && k < |root.children|
    requires root.children[k].Block() == node.Block()
    requires SameHeader(x, node) && WF(x)
    ensures WF(root.(children := root.children[k := x]))
  {
    ChildReplacedWF(root, k, x);
  }

  /** A well-formed child with the same block may take child k's place. */
  lemma ChildReplacedWF(root: Node, k: nat, x: Node)
    requires WF(root) && k < |root.children|
    requires x.Block() == root.children[k].Block() && WF(x)
    ensures WF(root.(children := root.children[k := x]))
  {
    var cs := root.children;
    SortedReplace(cs, k, x);
    var cs' := cs[k := x];
    forall i | 0 <= i < |cs'|
      ensures TreeBlock(cs'[i].Block()) && Inside(root.Block(), cs'[i].Block()) && WF(cs'[i])
    {
      if i != k {
        assert cs'[i] == cs[i];
      }
    }
  }

  /** Outside child k, no label of a well-formed node has child k's block. */
  lemma OtherChildLabel(root: Node, k: nat, j: nat, e: Entry)
    requires WF(root) && k < |root.children| && j < |root.children| && j != k
    requires e in EntriesSelf(root.children[j])
    ensures EntryBlock(e) != root.children[k].Block()
  {
    var cs := root.children;
    var l := Label(cs[k]);
    assert WFChildren(root.Block(), cs);
    assert l in EntriesSelf(cs[k]);
    if j < k {
      SiblingsDisjoint(root.Block(), cs, j, k);
      assert EntryBlock(e) != EntryBlock(l);
    } else {
      SiblingsDisjoint(root.Block(), cs, k, j);
      assert EntryBlock(l) != EntryBlock(e);
    }
  }

  /** The labels before and after child k avoid its block. */
  lemma OthersAvoid(root: Node, k: nat)
    requires WF(root) && k < |root.children|
    ensures forall e :: e in EntriesSeq(root.children[..k]) ==> EntryBlock(e) != root.children[k].Block()
    ensures forall e :: e in EntriesSeq(root.children[k + 1..]) ==> EntryBlock(e) != root.children[k].Block()
  {
    var cs := root.children;
    forall e | e in EntriesSeq(cs[..k]) ensures EntryBlock(e) != cs[k].Block() {
      var j := EntriesSeqMember(cs[..k], e);
      assert cs[..k][j] == cs[j];
      OtherChildLabel(root, k, j, e);
    }
    forall e | e in EntriesSeq(cs[k + 1..]) ensures EntryBlock(e) != cs[k].Block() {
      var j := EntriesSeqMember(cs[k + 1..], e);
      assert cs[k + 1..][j] == cs[k + 1 + j];
      OtherChildLabel(root, k, k + 1 + j, e);
    }
  }

  /** The strict descendants of a node avoid its block. */
  lemma ReplaceEntries(root: Node, node: Node, k: nat, x: Node)
    requires CanInsert(root, node) && k < |root.children|
    requires root.children[k].Block() == node.Block()
    requires SameHeader(x, node)
    requires Entries(x) == Entries(node) + Entries(root.children[k])
    ensures Entries(root.(children := root.children[k := x])) == Without(Entries(root), node.Block()) + EntriesSelf(node)
  {
    var cs := root.children;
    ReplacedMeasures(cs, k, x);
    SplitAt(cs, k);
    OthersAvoid(root, k);
    DescendantsAvoid(cs[k]);
    var pre, post := EntriesSeq(cs[..k]), EntriesSeq(cs[k + 1..]);
    WithoutAround(pre, EntriesSelf(cs[k]), post, node.Block());
    WithoutOwn(cs[k]);
    assert Label(x) == Label(node);
  }

  /** A label of another child lies outside child k, hence is not the block of a node inside child k. */
  lemma AwayFromChild(root: Node, k: nat, j: nat, n: Key, e: Entry)
    requires WF(root) && k < |root.children| && j < |root.children| && j != k
    requires Inside(root.children[k].Block(), n)
    requires e in EntriesSelf(root.children[j])
    ensures EntryBlock(e) != n
  {
    var cs := root.children;
    SiblingWithin(root.Block(), cs, j, e);
    if j < k {
      assert End(cs[j].Block()) <= cs[k].ip;
    } else {
      assert End(cs[k].Block()) <= cs[j].ip;
    }
  }

  /** The labels before child k avoid every block inside child k. */
  lemma BeforeAvoidsInside(root: Node, k: nat, n: Key)
    requires WF(root) && k < |root.children| && Inside(root.children[k].Block(), n)
    ensures forall e :: e in EntriesSeq(root.children[..k]) ==> EntryBlock(e) != n
  {
    var cs := root.children;
    forall e | e in EntriesSeq(cs[..k]) ensures EntryBlock(e) != n {
      assert cs[..k] == cs[0..k];
      var j := SliceMember(cs, 0, k, e);
      AwayFromChild(root, k, j, n, e);
    }
  }

  /** A label after child k avoids every block inside child k. */
  lemma LaterAvoidsInside(root: Node, k: nat, n: Key, e: Entry)
    requires WF(root) && k < |root.children| && Inside(root.children[k].Block(), n)
    requires e in EntriesSeq(root.children[k + 1..])
    ensures EntryBlock(e) != n
  {
    var j := SuffixMember(root.children, k + 1, e);
    AwayFromChild(root, k, j, n, e);
  }

  /** The labels after child k avoid every block inside child k. */
  lemma AfterAvoidsInside(root: Node, k: nat, n: Key)
    requires WF(root) && k < |root.children| && Inside(root.children[k].Block(), n)
    ensures forall e :: e in EntriesSeq(root.children[k + 1..]) ==> EntryBlock(e) != n
  {
    forall e | e in EntriesSeq(root.children[k + 1..]) ensures EntryBlock(e) != n {
      LaterAvoidsInside(root, k, n, e);
    }
  }

  lemma DescendEntries(root: Node, node: Node, k: nat, x: Node)
    requires CanInsert(root, node) && k < |root.children|
    requires root.children[k].Block() != node.Block()
    requires Inside(root.children[k].Block(), node.Block())
    requires SameHeader(x, root.children[k])
    requires Entries(x) == Without(Entries(root.children[k]), node.Block()) + EntriesSelf(node)
    ensures Entries(root.(children := root.children[k := x])) == Without(Entries(root), node.Block()) + EntriesSelf(node)
  {
    var cs := root.children;
    var n := node.Block();
    BeforeAvoidsInside(root, k, n);
    AfterAvoidsInside(root, k, n);
    ReplacedMeasures(cs, k, x);
    SplitAt(cs, k);
    var pre, post := EntriesSeq(cs[..k]), EntriesSeq(cs[k + 1..]);
    WithoutAround(pre, EntriesSelf(cs[k]), post, n);
    WithoutSelf(cs[k], n);
    assert Label(x) == Label(cs[k]);
    assert EntriesSelf(x) == {Label(cs[k])} + Entries(x);
  }

  lemma SpliceKeepsWF(root: Node, node: Node, pos: nat, len: nat, x: Node)
    requires CanInsert(root, node) && RunOf(root.children, node.Block(), pos, len)
    requires SameHeader(x, node) && WF(x)
    ensures WF(root.(children := root.children[..pos] + [x] + root.children[pos + len..]))
  {
    var cs := root.children;
    SortedSplice(cs, pos, len, x);
    var cs' := cs[..pos] + [x] + cs[pos + len..];
    forall i | 0 <= i < |cs'|
      ensures TreeBlock(cs'[i].Block()) && Inside(root.Block(), cs'[i].Block()) && WF(cs'[i])
    {
      SpliceAt(cs, pos, len, x, i);
    }
  }

  /** A label outside the run lies before or after `node`, one inside it below `node`. */
  lemma SpliceLabel(root: Node, node: Node, pos: nat, len: nat, e: Entry)
    requires CanInsert(root, node) && RunOf(root.children, node.Block(), pos, len)
    requires forall j :: pos <= j < pos + len ==> Inside(node.Block(), root.children[j].Block())
    requires e in Entries(root)
    ensures EntryBlock(e) != node.Block()
  {
    var cs := root.children;
    var j := EntriesSeqMember(cs, e);
    SiblingWithin(root.Block(), cs, j, e);
    if j < pos {
      if j < pos - 1 {
        assert End(cs[j].Block()) <= cs[pos - 1].ip;
      }
    } else if j >= pos + len {
      if j > pos + len {
        assert End(cs[pos + len].Block()) <= cs[j].ip;
      }
    }
  }

  lemma SpliceEntries(root: Node, node: Node, pos: nat, len: nat, x: Node)
    requires CanInsert(root, node) && RunOf(root.children, node.Block(), pos, len)
    requires forall j :: pos <= j < pos + len ==> Inside(node.Block(), root.children[j].Block())
    requires SameHeader(x, node)
    requires Entries(x) == Entries(node) + EntriesSeq(root.children[pos..pos + len])
    ensures Entries(root.(children := root.children[..pos] + [x] + root.children[pos + len..])) ==
      Without(Entries(root), node.Block()) + EntriesSelf(node)
  {
    var cs := root.children;
    SpliceAvoids(root, node, pos, len);
    SplicedMeasures(cs, pos, len, x);
    assert Label(x) == Label(node);
  }

  /** No label of the tree has the block of a node that swallows a run. */
  lemma SpliceAvoids(root: Node, node: Node, pos: nat, len: nat)
    requires CanInsert(root, node) && RunOf(root.children, node.Block(), pos, len)
    requires forall j :: pos <= j < pos + len ==> Inside(node.Block(), root.children[j].Block())
    ensures Without(Entries(root), node.Block()) == Entries(root)
  {
    forall e | e in Entries(root) ensures EntryBlock(e) != node.Block() {
      SpliceLabel(root, node, pos, len, e);
    }
  }

  /** Prefix lengths never decrease along `s`. */
  predicate CidrOrdered(s: seq<Key>) {
    forall i, j :: 0 <= i < j < |s| ==> s[i].cidr <= s[j].cidr
  }

  /** Inserts k after every element whose prefix length is at most k's. */
  function InsertByCidr(s: seq<Key>, k: Key): (r: seq<Key>)
    ensures multiset(r) == multiset(s) + multiset{k}
    ensures CidrOrdered(s) ==> CidrOrdered(r)
  {
    if s == [] then [k]
    else if k.cidr < s[|s| - 1].cidr then
      var init := s[..|s| - 1];
      assert s == init + [s[|s| - 1]];
      assert multiset(s) == multiset(init) + multiset{s[|s| - 1]};
      var p := InsertByCidr(init, k);
      assert CidrOrdered(s) ==> CidrOrdered(p + [s[|s| - 1]]) by {
        if CidrOrdered(s) {
          AppendOrdered(p, s, k);
        }
      }
      p + [s[|s| - 1]]
    else s + [k]
  }

  /** Appending the last element of s after an ordered rearrangement of the rest of s and k keeps the order. */
  lemma AppendOrdered(p: seq<Key>, s: seq<Key>, k: Key)
    requires s != [] && CidrOrdered(s) && k.cidr <= s[|s| - 1].cidr
    requires CidrOrdered(p) && multiset(p) == multiset(s[..|s| - 1]) + multiset{k}
    ensures CidrOrdered(p + [s[|s| - 1]])
  {
    var init, last := s[..|s| - 1], s[|s| - 1];
    forall i | 0 <= i < |p| ensures p[i].cidr <= last.cidr {
      assert p[i] in multiset(p);
      if p[i] != k {
        assert p[i] in multiset(init);
        var j :| 0 <= j < |init| && init[j] == p[i];
        assert s[j] == p[i];
      }
    }
  }

  /**
   * `keys.sort((a, b) => cidr(a) - cidr(b))` (src/tree.js:31-35): a stable sort
   * by prefix length, written as an insertion sort.
   */
  function SortByCidr(ks: seq<Key>): (r: seq<Key>)
    ensures multiset(r) == multiset(ks)
    ensures CidrOrdered(r)
  {
    if ks == [] then []
    else
      assert ks == ks[..|ks| - 1] + [ks[|ks| - 1]];
      InsertByCidr(SortByCidr(ks[..|ks| - 1]), ks[|ks| - 1])
  }

  /** No element occurs twice. */
  predicate Distinct<T(==)>(s: seq<T>) {
    forall i, j :: 0 <= i < j < |s| ==> s[i] != s[j]
  }

  lemma {:induction false} DistinctCounts<T>(s: seq<T>)
    requires Distinct(s)
    ensures forall x :: multiset(s)[x] <= 1
  {
    if s != [] {
      var last := s[|s| - 1];
      assert s == s[..|s| - 1] + [last];
      DistinctCounts(s[..|s| - 1]);
      assert last !in s[..|s| - 1];
    }
  }

  lemma RepeatCounts<T>(s: seq<T>, i: nat, j: nat)
    requires i < j < |s| && s[i] == s[j]
    ensures multiset(s)[s[i]] >= 2
  {
    assert s == s[..j] + [s[j]] + s[j + 1..];
    assert s[i] in s[..j];
  }

  /** A rearrangement of a repetition-free sequence is repetition free. */
  lemma PermutationDistinct<T>(s: seq<T>, t: seq<T>)
    requires multiset(s) == multiset(t) && Distinct(t)
    ensures Distinct(s)
  {
    DistinctCounts(t);
    forall i, j | 0 <= i < j < |s| ensures s[i] != s[j] {
      if s[i] == s[j] {
        RepeatCounts(s, i, j);
      }
    }
  }

  /** The node `tableToTree` makes for key k (src/tree.js:42-48). */
  function NodeOf(t: JsMap<Key, Value>, k: Key): Node
    requires k in t.vals
  {
    Node(k.ip, k.cidr, Some(k), Some(t.vals[k]), [])
  }

  /** The labels a tree built from t should carry: one per key, with its value. */
  ghost function TableEntries(t: JsMap<Key, Value>): set<Entry> {
    set k | k in t.vals :: Label(NodeOf(t, k))
  }

  /** In the address space, below the root. */
  lemma UnderRoot(k: Key)
    requires TreeBlock(k)
    ensures Inside(EmptyRoot().Block(), k)
  {
    Pow2Values();
  }

  /** The loop state of TableToTree: root carries the first i sorted keys. */
  ghost predicate BuiltUpTo(t: JsMap<Key, Value>, sorted: seq<Key>, i: nat, root: Node, blocks: bool) {
    && i <= |sorted| && (forall j :: 0 <= j < |sorted| ==> sorted[j] in t.vals)
    && SameHeader(root, EmptyRoot())
    && (blocks ==> WF(root) && Entries(root) == LabelsUpTo(t, sorted, i))
  }

  /** For a table of tree blocks, the next key can be inserted below the root. */
  lemma TableNext(t: JsMap<Key, Value>, sorted: seq<Key>, i: nat, root: Node)
    requires i < |sorted| && Distinct(sorted) && BuiltUpTo(t, sorted, i, root, true)
    requires forall k :: k in t.vals ==> TreeBlock(k)
    ensures CanInsert(root, NodeOf(t, sorted[i]))
    ensures BlocksDisjoint(Entries(NodeOf(t, sorted[i])), Entries(root))
  {
    UnderRoot(sorted[i]);
  }

  /** Inserting the next key's node extends the labels by that key's label. */
  lemma TableStep(t: JsMap<Key, Value>, sorted: seq<Key>, i: nat, root: Node, next: Node, blocks: bool)
    requires i < |sorted| && Distinct(sorted) && BuiltUpTo(t, sorted, i, root, blocks)
    requires SameHeader(next, root)
    requires blocks ==> WF(next) && Entries(next) == Without(Entries(root), sorted[i]) + EntriesSelf(NodeOf(t, sorted[i]))
    ensures BuiltUpTo(t, sorted, i + 1, next, blocks)
  {
    LabelsStep(t, sorted, i);
    if blocks {
      assert Without(Entries(root), sorted[i]) == Entries(root);
    }
  }

  /** The labels of the first i sorted keys. */
  ghost function LabelsUpTo(t: JsMap<Key, Value>, sorted: seq<Key>, i: nat): set<Entry>
    requires i <= |sorted| && forall j :: 0 <= j < |sorted| ==> sorted[j] in t.vals
  {
    set j | 0 <= j < i :: Label(NodeOf(t, sorted[j]))
  }

  lemma LabelsStep(t: JsMap<Key, Value>, sorted: seq<Key>, i: nat)
    requires i < |sorted| && forall j :: 0 <= j < |sorted| ==> sorted[j] in t.vals
    requires Distinct(sorted)
    ensures LabelsUpTo(t, sorted, i + 1) == LabelsUpTo(t, sorted, i) + {Label(NodeOf(t, sorted[i]))}
    ensures forall e :: e in LabelsUpTo(t, sorted, i) ==> EntryBlock(e) != sorted[i]
  {
    forall e | e in LabelsUpTo(t, sorted, i) ensures EntryBlock(e) != sorted[i] {
      var j :| 0 <= j < i && e == Label(NodeOf(t, sorted[j]));
    }
  }

  lemma LabelsAll(t: JsMap<Key, Value>, sorted: seq<Key>)
    requires Valid(t) && multiset(sorted) == multiset(t.keys)
    requires forall j :: 0 <= j < |sorted| ==> sorted[j] in t.vals
    ensures LabelsUpTo(t, sorted, |sorted|) == TableEntries(t)
  {
    forall e | e in TableEntries(t) ensures e in LabelsUpTo(t, sorted, |sorted|) {
      var k :| k in t.vals && e == Label(NodeOf(t, k));
      assert k in KeySet(t.keys);
      assert k in multiset(sorted);
      var j :| 0 <= j < |sorted| && sorted[j] == k;
    }
  }

  /** The sorted keys are the table's keys, each once. */
  lemma SortedKeys(t: JsMap<Key, Value>, sorted: seq<Key>)
    requires Valid(t) && multiset(sorted) == multiset(t.keys)
    ensures forall j :: 0 <= j < |sorted| ==> sorted[j] in t.vals
    ensures Distinct(sorted)
  {
    forall j | 0 <= j < |sorted| ensures sorted[j] in t.vals {
      assert sorted[j] in multiset(sorted);
    }
    PermutationDistinct(sorted, t.keys);
  }

  /**
   * `tableToTree` (src/tree.js:26-57): inserts the table's keys, ordered by
   * prefix length, into an empty root. For a table of tree blocks the result
   * is well formed and carries exactly the table's entries.
   */
  method TableToTree(t: JsMap<Key, Value>) returns (r: Result<Node>)
    requires Valid(t)
    ensures r.Ok? ==> SameHeader(r.value, EmptyRoot())
    ensures (forall k :: k in t.vals ==> TreeBlock(k)) ==>
      r.Ok? && WF(r.value) && Entries(r.value) == TableEntries(t)
  {
    var sorted := SortByCidr(t.keys);
    ghost var blocks := forall k :: k in t.vals ==> TreeBlock(k);
    SortedKeys(t, sorted);
    var root := EmptyRoot();
    var i := 0;
    while i < |sorted|
      invariant i <= |sorted| && BuiltUpTo(t, sorted, i, root, blocks)
    {
      var node := NodeOf(t, sorted[i]);
      if blocks {
        TableNext(t, sorted, i, root);
      }
      var res := InsertInTree(root, node);
      if res.Err? {
        return res;
      }
      TableStep(t, sorted, i, root, res.value, blocks);
      root := res.value;
      i := i + 1;
    }
    LabelsAll(t, sorted);
    r := Ok(root);
  }
}
