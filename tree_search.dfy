/**
 * Searching and flattening the prefix tree (src/tree.js): `treeToTable`,
 * `findKey`, `slow_findKey`, `treeSize`, `firstOf`, `lastOf` and `clone`.
 */
module TreeSearch {
  import opened Wrappers
  import opened Arith
  import opened PrefixMath
  import opened TreeNodes
  import opened TreeFacts
  import opened JsObjects
  import opened TreeInsert

  /** A flattened table: `node.key` (possibly `undefined`) to `node.value`. */
  type Table = JsMap<Option<Key>, Option<Value>>

  /** The table `treeToTable(n)` builds (src/tree.js:441-456). */
  function TableOf(n: Node): Table
    decreases n, 1
  {
    TableOfSeq(EmptyMap(), n.children)
  }

  /**
   * Continues the loop of `treeToTable` over the children `cs` with the
   * table built so far: each child's key and value, then its subtree's table.
   */
  function TableOfSeq(acc: Table, cs: seq<Node>): Table
    decreases cs, 0
  {
    if cs == [] then acc
    else
      var sub := TableOf(cs[0]);
      TableOfSeq(PutKeys(Put(acc, cs[0].key, cs[0].value), sub.keys, sub.vals), cs[1..])
  }

  /** The flattened table is a valid object: distinct keys, each with a value. */
  lemma {:induction false} TableOfValid(n: Node)
    ensures Valid(TableOf(n))
    decreases n, 1
  {
    TableOfSeqValid(EmptyMap(), n.children);
  }

  lemma {:induction false} TableOfSeqValid(acc: Table, cs: seq<Node>)
    requires Valid(acc)
    ensures Valid(TableOfSeq(acc, cs))
    decreases cs, 0
  {
    if cs != [] {
      var sub := TableOf(cs[0]);
      PutKeysValid(Put(acc, cs[0].key, cs[0].value), sub.keys, sub.vals);
      TableOfSeqValid(PutKeys(Put(acc, cs[0].key, cs[0].value), sub.keys, sub.vals), cs[1..]);
    }
  }

  /** `treeToTable` (src/tree.js:441-456). */
  method TreeToTable(n: Node) returns (t: Table)
    decreases n
    ensures t == TableOf(n)
  {
    t := EmptyMap();
    var i := 0;
    while i < |n.children|
      invariant i <= |n.children|
      invariant TableOfSeq(t, n.children[i..]) == TableOf(n)
    {
      var c := n.children[i];
      assert n.children[i..][1..] == n.children[i + 1..];
      t := Put(t, c.key, c.value);
      var sub := TreeToTable(c);
      TableOfValid(c);
      t := CopyKeys(t, sub);
      i := i + 1;
    }
  }

  /** `Object.keys(childKeys).forEach(addKeys)` (src/tree.js:446-448, 452). */
  method CopyKeys(t: Table, sub: Table) returns (t': Table)
    requires Valid(sub)
    ensures t' == PutKeys(t, sub.keys, sub.vals)
  {
    t' := t;
    var j := 0;
    while j < |sub.keys|
      invariant j <= |sub.keys|
      invariant PutKeys(t', sub.keys[j..], sub.vals) == PutKeys(t, sub.keys, sub.vals)
    {
      var k := sub.keys[j];
      assert k in sub.vals;
      PutKeysFirst(t', sub.keys[j..], sub.vals);
      assert sub.keys[j..][1..] == sub.keys[j + 1..];
      t' := Put(t', k, sub.vals[k]);
      j := j + 1;
    }
  }

  /** The keys of a set of labels. */
  ghost function KeysOf(es: set<Entry>): set<Option<Key>> {
    set e | e in es :: e.key
  }

  /** Labels with equal keys are equal. */
  ghost predicate UniqueKeys(es: set<Entry>) {
    forall a, b :: a in es && b in es && a.key == b.key ==> a == b
  }

  /** The values a subtree writes: its own key, then its descendants, later writes winning. */
  ghost function NodeVals(c: Node): map<Option<Key>, Option<Value>>
    decreases c, 1
  {
    map[c.key := c.value] + SeqVals(c.children)
  }

  ghost function SeqVals(cs: seq<Node>): map<Option<Key>, Option<Value>>
    decreases cs, 0
  {
    if cs == [] then map[] else NodeVals(cs[0]) + SeqVals(cs[1..])
  }

  /** The loop of `treeToTable` lays the children's writes over the table built so far. */
  lemma {:induction false} TableOfSeqIsUnion(acc: Table, cs: seq<Node>)
    requires Valid(acc)
    ensures TableOfSeq(acc, cs).vals == acc.vals + SeqVals(cs)
    decreases cs
  {
    if cs != [] {
      var c, rest := cs[0], cs[1..];
      TableOfSeqIsUnion(EmptyMap(), c.children);
      var acc' := StepUnion(acc, c);
      TableOfSeqIsUnion(acc', rest);
      UnionStep(acc, cs, acc', TableOfSeq(acc', rest));
    }
  }

  /** Chains one child's step with the rest of the loop. */
  lemma UnionStep(acc: Table, cs: seq<Node>, acc': Table, t: Table)
    requires cs != []
    requires acc' == PutKeys(Put(acc, cs[0].key, cs[0].value), TableOf(cs[0]).keys, TableOf(cs[0]).vals)
    requires acc'.vals == acc.vals + NodeVals(cs[0])
    requires t == TableOfSeq(acc', cs[1..]) && t.vals == acc'.vals + SeqVals(cs[1..])
    ensures TableOfSeq(acc, cs).vals == acc.vals + SeqVals(cs)
  {
    UnionAssoc(acc.vals, NodeVals(cs[0]), SeqVals(cs[1..]));
  }

  /** One child's step: its key and value, then a copy of its subtree's table. */
  lemma StepUnion(acc: Table, c: Node) returns (acc': Table)
    requires Valid(acc) && TableOf(c).vals == SeqVals(c.children)
    ensures acc' == PutKeys(Put(acc, c.key, c.value), TableOf(c).keys, TableOf(c).vals)
    ensures Valid(acc') && acc'.vals == acc.vals + NodeVals(c)
  {
    var sub := TableOf(c);
    var put := Put(acc, c.key, c.value);
    TableOfValid(c);
    CopyAll(put, sub);
    PutKeysValid(put, sub.keys, sub.vals);
    acc' := PutKeys(put, sub.keys, sub.vals);
    UnionAfterUpdate(acc.vals, c.key, c.value, sub.vals);
  }

  /** With unique keys, a subtree's writes hold each label's value under its key. */
  lemma {:induction false} NodeValsHold(c: Node)
    requires UniqueKeys(EntriesSelf(c))
    ensures NodeVals(c).Keys == KeysOf(EntriesSelf(c))
    ensures forall e :: e in EntriesSelf(c) ==> NodeVals(c)[e.key] == e.value
    decreases c, 1
  {
    assert Entries(c) <= EntriesSelf(c);
    SeqValsHold(c.children);
    assert KeysOf(EntriesSelf(c)) == {c.key} + KeysOf(Entries(c));
    forall e | e in EntriesSelf(c) ensures NodeVals(c)[e.key] == e.value {
      if e.key in KeysOf(Entries(c)) {
        var e' :| e' in Entries(c) && e'.key == e.key;
      }
    }
  }

  lemma {:induction false} SeqValsHold(cs: seq<Node>)
    requires UniqueKeys(EntriesSeq(cs))
    ensures SeqVals(cs).Keys == KeysOf(EntriesSeq(cs))
    ensures forall e :: e in EntriesSeq(cs) ==> SeqVals(cs)[e.key] == e.value
    decreases cs, 0
  {
    if cs != [] {
      var c, rest := cs[0], cs[1..];
      assert EntriesSeq(cs) == EntriesSelf(c) + EntriesSeq(rest);
      NodeValsHold(c);
      SeqValsHold(rest);
      assert KeysOf(EntriesSeq(cs)) == KeysOf(EntriesSelf(c)) + KeysOf(EntriesSeq(rest));
      forall e | e in EntriesSelf(c) ensures SeqVals(cs)[e.key] == e.value {
        if e.key in KeysOf(EntriesSeq(rest)) {
          var e' :| e' in EntriesSeq(rest) && e'.key == e.key;
        }
      }
    }
  }

  /** The table of a node whose descendants have unique keys: their keys, each with its label's value. */
  lemma TableOfVals(n: Node)
    requires UniqueKeys(Entries(n))
    ensures TableOf(n).vals.Keys == KeysOf(Entries(n))
    ensures forall e :: e in Entries(n) ==> TableOf(n).vals[e.key] == e.value
  {
    TableOfSeqIsUnion(EmptyMap(), n.children);
    SeqValsHold(n.children);
  }

  /**
   * Flattening a tree that carries exactly the entries of a table (as
   * `TableToTree` builds it) gives back that table: the same keys with the
   * same values, and nothing under `undefined`.
   */
  lemma RoundTrip(t: JsMap<Key, Value>, n: Node)
    requires Entries(n) == TableEntries(t)
    ensures None !in TableOf(n).vals
    ensures forall k :: Some(k) in TableOf(n).vals <==> k in t.vals
    ensures forall k :: k in t.vals ==> TableOf(n).vals[Some(k)] == Some(t.vals[k])
  {
    assert UniqueKeys(Entries(n)) by {
      forall a, b | a in Entries(n) && b in Entries(n) && a.key == b.key ensures a == b {
        var ka :| ka in t.vals && a == Label(NodeOf(t, ka));
        var kb :| kb in t.vals && b == Label(NodeOf(t, kb));
      }
    }
    TableOfVals(n);
    forall k | k in t.vals ensures Some(k) in TableOf(n).vals && TableOf(n).vals[Some(k)] == Some(t.vals[k]) {
      assert Label(NodeOf(t, k)) in Entries(n);
    }
    forall o | o in TableOf(n).vals ensures o.Some? && o.value in t.vals {
      var e :| e in Entries(n) && e.key == o;
      var k :| k in t.vals && e == Label(NodeOf(t, k));
    }
  }

  /** `treeSize` (src/tree.js:404-414): one plus the sizes of the children. */
  method TreeSize(n: Node) returns (r: nat)
    decreases n
    ensures r == Size(n)
  {
    r := 1;
    var i := 0;
    while i < |n.children|
      invariant i <= |n.children|
      invariant r == 1 + SizeSeq(n.children[..i])
    {
      var s := TreeSize(n.children[i]);
      PrefixStep(n.children, i);
      r := r + s;
      i := i + 1;
    }
    assert n.children[..i] == n.children;
  }

  /** In a well-formed tree the labels are all distinct, so treeSize counts them. */
  lemma {:induction false} SizeCountsLabels(n: Node)
    requires WF(n)
    ensures |EntriesSelf(n)| == Size(n)
    decreases n, 1
  {
    DescendantsAvoid(n);
    assert Label(n) !in Entries(n);
    SizeSeqCountsLabels(n.Block(), n.children);
  }

  lemma {:induction false} SizeSeqCountsLabels(p: Key, cs: seq<Node>)
    requires WFChildren(p, cs)
    ensures |EntriesSeq(cs)| == SizeSeq(cs)
    decreases cs, 0
  {
    if cs != [] {
      SizeCountsLabels(cs[0]);
      WFChildrenTail(p, cs);
      SizeSeqCountsLabels(p, cs[1..]);
      HeadApart(p, cs);
      assert EntriesSeq(cs) == EntriesSelf(cs[0]) + EntriesSeq(cs[1..]);
      assert SizeSeq(cs) == Size(cs[0]) + SizeSeq(cs[1..]);
    }
  }

  /** The tail of a well-formed sibling list is one. */
  lemma WFChildrenTail(p: Key, cs: seq<Node>)
    requires WFChildren(p, cs) && cs != []
    ensures WFChildren(p, cs[1..])
  {
    var rest := cs[1..];
    forall i, j | 0 <= i < j < |rest| ensures End(rest[i].Block()) <= rest[j].ip {
      assert rest[i] == cs[i + 1] && rest[j] == cs[j + 1];
    }
  }

  /** The first sibling's labels are not among the others'. */
  lemma HeadApart(p: Key, cs: seq<Node>)
    requires WFChildren(p, cs) && cs != []
    ensures EntriesSelf(cs[0]) * EntriesSeq(cs[1..]) == {}
  {
    var head, tail := EntriesSelf(cs[0]), EntriesSeq(cs[1..]);
    forall x, y | x in head && y in tail ensures EntryBlock(x) != EntryBlock(y) {
      var j := SuffixMember(cs, 1, y);
      SiblingsDisjoint(p, cs, 0, j);
    }
    assert forall e :: e in head ==> e !in tail;
  }

  /** Every node below n carries its own block as key, as `tableToTree` sets it. */
  ghost predicate KeyedBelow(n: Node) {
    forall e :: e in Entries(n) ==> e.key == Some(EntryBlock(e))
  }

  /** `findKey` (src/tree.js:149-162) as a value: a matching key, else the first child containing the key. */
  function FindKeyOf(n: Node, k: Key): Option<Node>
    decreases n, 1
  {
    if n.key == Some(k) then Some(n) else FindKeyIn(n.children, k)
  }

  function FindKeyIn(cs: seq<Node>, k: Key): Option<Node>
    decreases cs, 0
  {
    if cs == [] then None
    else if Contains(cs[0].Block(), k) then FindKeyOf(cs[0], k)
    else FindKeyIn(cs[1..], k)
  }

  /** `findKey` (src/tree.js:149-162). */
  method FindKey(n: Node, k: Key) returns (r: Option<Node>)
    decreases n
    ensures r == FindKeyOf(n, k)
    ensures r.Some? ==> r.value.key == Some(k) && Label(r.value) in EntriesSelf(n)
  {
    FindKeyFound(n, k);
    if n.key == Some(k) {
      return Some(n);
    }
    var i := 0;
    while i < |n.children|
      invariant i <= |n.children|
      invariant FindKeyIn(n.children[i..], k) == FindKeyIn(n.children, k)
    {
      assert n.children[i..][1..] == n.children[i + 1..];
      if Contains(n.children[i].Block(), k) {
        r := FindKey(n.children[i], k);
        return;
      }
      i := i + 1;
    }
    return None;
  }

  /** A node `findKey` returns carries the key and belongs to the tree. */
  lemma {:induction false} FindKeyFound(n: Node, k: Key)
    ensures FindKeyOf(n, k).Some? ==> FindKeyOf(n, k).value.key == Some(k) && Label(FindKeyOf(n, k).value) in EntriesSelf(n)
    decreases n, 1
  {
    if n.key != Some(k) {
      FindKeyInFound(n.children, k);
    }
  }

  lemma {:induction false} FindKeyInFound(cs: seq<Node>, k: Key)
    ensures FindKeyIn(cs, k).Some? ==> FindKeyIn(cs, k).value.key == Some(k) && Label(FindKeyIn(cs, k).value) in EntriesSeq(cs)
    decreases cs, 0
  {
    if cs != [] {
      if Contains(cs[0].Block(), k) {
        FindKeyFound(cs[0], k);
      } else {
        FindKeyInFound(cs[1..], k);
      }
    }
  }

  /**
   * `findKey` descends only into a child that strictly contains the key, so
   * below a tree whose nodes carry their own blocks as keys it never returns a
   * descendant, whatever the key.
   */
  lemma {:induction false} FindKeyMissesDescendants(n: Node, k: Key)
    requires KeyedBelow(n)
    ensures FindKeyIn(n.children, k) == None
    decreases n, 1
  {
    MissesIn(n.children, k);
  }

  lemma {:induction false} MissesIn(cs: seq<Node>, k: Key)
    requires forall e :: e in EntriesSeq(cs) ==> e.key == Some(EntryBlock(e))
    ensures FindKeyIn(cs, k) == None
    decreases cs, 0
  {
    if cs != [] {
      var c := cs[0];
      assert EntriesSeq(cs) == EntriesSelf(c) + EntriesSeq(cs[1..]);
      if Contains(c.Block(), k) {
        assert Label(c) in EntriesSelf(c);
        assert c.key != Some(k);
        FindKeyMissesDescendants(c, k);
      } else {
        MissesIn(cs[1..], k);
      }
    }
  }

  /** Concretely: in the tree for {10.0.0.0/8: "US"}, `findKey` does not find 10.0.0.0/8. */
  lemma FindKeyMissesChild()
    ensures var child := Node(0x0A00_0000, 8, Some(Key(0x0A00_0000, 8)), Some("US"), []);
      var root := Node(0, 0, None, None, [child]);
      WF(root) && Label(child) in Entries(root) && FindKeyOf(root, Key(0x0A00_0000, 8)) == None
      && SlowFindOf(root, Key(0x0A00_0000, 8)) == Some(child)
  {
    var child := Node(0x0A00_0000, 8, Some(Key(0x0A00_0000, 8)), Some("US"), []);
    var root := Node(0, 0, None, None, [child]);
    Pow2Table();
    Singleton(child);
    assert EntriesSeq(child.children) == {};
  }

  /** `findKey` with the evident intent: descend into the child whose block is the key or contains it. */
  function FindKeyFixed(n: Node, k: Key): Option<Node>
    decreases n, 1
  {
    if n.key == Some(k) then Some(n) else FindKeyFixedIn(n.children, k)
  }

  function FindKeyFixedIn(cs: seq<Node>, k: Key): Option<Node>
    decreases cs, 0
  {
    if cs == [] then None
    else if cs[0].Block() == k || Contains(cs[0].Block(), k) then FindKeyFixed(cs[0], k)
    else FindKeyFixedIn(cs[1..], k)
  }

  /**
   * In a well-formed tree whose nodes carry their own blocks as keys, the
   * corrected search returns the node holding any key present below the root.
   */
  lemma {:induction false} FindKeyFixedFinds(n: Node, e: Entry)
    requires WF(n) && KeyedBelow(n) && e in Entries(n)
    ensures FindKeyFixedIn(n.children, EntryBlock(e)).Some?
    ensures Label(FindKeyFixedIn(n.children, EntryBlock(e)).value) == e
    decreases n, 1
  {
    var j := EntriesSeqMember(n.children, e);
    FixedFindsIn(n, n.children, j, e);
    assert n.children[0..] == n.children;
  }

  lemma {:induction false} FixedFindsIn(n: Node, cs: seq<Node>, j: nat, e: Entry)
    requires WF(n) && KeyedBelow(n) && e in Entries(n)
    requires |cs| <= |n.children| && cs == n.children[|n.children| - |cs|..]
    requires |n.children| - |cs| <= j < |n.children| && e in EntriesSelf(n.children[j])
    ensures FindKeyFixedIn(cs, EntryBlock(e)).Some?
    ensures Label(FindKeyFixedIn(cs, EntryBlock(e)).value) == e
    decreases cs, 0
  {
    var off := |n.children| - |cs|;
    assert cs[0] == n.children[off];
    if off < j {
      EarlierSiblingSkipped(n, off, j, e);
      assert cs[1..] == n.children[off + 1..];
      FixedFindsIn(n, cs[1..], j, e);
    } else {
      FixedFindsHere(n, j, e);
    }
  }

  /** A sibling before the one holding e neither is e's block nor contains it. */
  lemma EarlierSiblingSkipped(n: Node, i: nat, j: nat, e: Entry)
    requires WF(n) && i < j < |n.children| && e in EntriesSelf(n.children[j])
    ensures n.children[i].Block() != EntryBlock(e) && !Contains(n.children[i].Block(), EntryBlock(e))
  {
    var c := n.children[i];
    SiblingWithin(n.Block(), n.children, j, e);
    assert End(c.Block()) <= n.children[j].ip;
  }

  /** The child holding e is e's node or contains e's block, and the search continues there. */
  lemma {:induction false} FixedFindsHere(n: Node, j: nat, e: Entry)
    requires WF(n) && KeyedBelow(n) && j < |n.children| && e in EntriesSelf(n.children[j])
    ensures var c := n.children[j];
      (c.Block() == EntryBlock(e) || Contains(c.Block(), EntryBlock(e)))
      && FindKeyFixed(c, EntryBlock(e)).Some? && Label(FindKeyFixed(c, EntryBlock(e)).value) == e
    decreases n.children[j], 2
  {
    var c := n.children[j];
    var k := EntryBlock(e);
    EntriesSeqHas(n.children, j);
    assert Label(c) in Entries(n);
    if e != Label(c) {
      assert e in Entries(c);
      EntriesInside(c, e);
      assert Contains(c.Block(), k);
      FindKeyFixedFinds(c, e);
    }
  }

  /** `slow_findKey` (src/tree.js:166-179) as a value: the first node in pre-order carrying the key. */
  function SlowFindOf(n: Node, k: Key): Option<Node>
    decreases n, 1
  {
    if n.key == Some(k) then Some(n) else SlowFindIn(n.children, k)
  }

  function SlowFindIn(cs: seq<Node>, k: Key): Option<Node>
    decreases cs, 0
  {
    if cs == [] then None
    else
      var r := SlowFindOf(cs[0], k);
      if r.Some? then r else SlowFindIn(cs[1..], k)
  }

  /** `slow_findKey` (src/tree.js:166-179). */
  method SlowFindKey(n: Node, k: Key) returns (r: Option<Node>)
    decreases n
    ensures r == SlowFindOf(n, k)
  {
    if n.key == Some(k) {
      return Some(n);
    }
    var i := 0;
    while i < |n.children|
      invariant i <= |n.children|
      invariant SlowFindIn(n.children[i..], k) == SlowFindIn(n.children, k)
    {
      assert n.children[i..][1..] == n.children[i + 1..];
      var found := SlowFindKey(n.children[i], k);
      if found.Some? {
        return found;
      }
      i := i + 1;
    }
    return None;
  }

  /** `slow_findKey` finds a node exactly when some node of the tree carries the key, and returns one. */
  lemma {:induction false} SlowFindFinds(n: Node, k: Key)
    ensures SlowFindOf(n, k).Some? <==> exists e :: e in EntriesSelf(n) && e.key == Some(k)
    ensures SlowFindOf(n, k).Some? ==>
      SlowFindOf(n, k).value.key == Some(k) && Label(SlowFindOf(n, k).value) in EntriesSelf(n)
    decreases n, 1
  {
    assert EntriesSelf(n) == {Label(n)} + EntriesSeq(n.children);
    if n.key == Some(k) {
      assert Label(n) in EntriesSelf(n);
    } else {
      SlowFindInFinds(n.children, k);
    }
  }

  lemma {:induction false} SlowFindInFinds(cs: seq<Node>, k: Key)
    ensures SlowFindIn(cs, k).Some? <==> exists e :: e in EntriesSeq(cs) && e.key == Some(k)
    ensures SlowFindIn(cs, k).Some? ==>
      SlowFindIn(cs, k).value.key == Some(k) && Label(SlowFindIn(cs, k).value) in EntriesSeq(cs)
    decreases cs, 0
  {
    if cs != [] {
      SlowFindFinds(cs[0], k);
      SlowFindInFinds(cs[1..], k);
      assert EntriesSeq(cs) == EntriesSelf(cs[0]) + EntriesSeq(cs[1..]);
    }
  }

  /** `firstOf` (src/tree.js:417-425): the first child with the value, or null. */
  method FirstOf(n: Node, v: Option<Value>) returns (r: Option<Node>)
    ensures r.None? <==> forall i :: 0 <= i < |n.children| ==> n.children[i].value != v
    ensures r.Some? ==> exists i :: (0 <= i < |n.children| && n.children[i] == r.value && n.children[i].value == v
      && forall j :: 0 <= j < i ==> n.children[j].value != v)
  {
    var i := 0;
    while i < |n.children|
      invariant i <= |n.children|
      invariant forall j :: 0 <= j < i ==> n.children[j].value != v
    {
      if n.children[i].value == v {
        return Some(n.children[i]);
      }
      i := i + 1;
    }
    return None;
  }

  /** `lastOf` (src/tree.js:428-436): the last child with the value, or null. */
  method LastOf(n: Node, v: Option<Value>) returns (r: Option<Node>)
    ensures r.None? <==> forall i :: 0 <= i < |n.children| ==> n.children[i].value != v
    ensures r.Some? ==> exists i :: (0 <= i < |n.children| && n.children[i] == r.value && n.children[i].value == v
      && forall j :: i < j < |n.children| ==> n.children[j].value != v)
  {
    var i := |n.children|;
    while i > 0
      invariant 0 <= i <= |n.children|
      invariant forall j :: i <= j < |n.children| ==> n.children[j].value != v
    {
      i := i - 1;
      if n.children[i].value == v {
        return Some(n.children[i]);
      }
    }
    return None;
  }

  /** `clone` (src/tree.js:236-240): a shallow copy that keeps the block, value and children but not the key. */
  function Clone(n: Node): Node {
    Node(n.ip, n.cidr, None, n.value, n.children)
  }

  /** A clone is keyless and indistinguishable from the original below its root. */
  lemma CloneKeeps(n: Node)
    ensures Clone(n).key == None && Clone(n).Block() == n.Block() && Clone(n).value == n.value
    ensures WF(Clone(n)) <==> WF(n)
    ensures Entries(Clone(n)) == Entries(n) && Size(Clone(n)) == Size(n)
    ensures TableOf(Clone(n)) == TableOf(n)
  {
  }
}
