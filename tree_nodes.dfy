/**
 * The prefix tree's node, the block predicates of src/tree.js and src/util.js,
 * and the invariants the tree is meant to keep.
 */
module TreeNodes {
  import opened Wrappers
  import opened Arith
  import opened PrefixMath

  /** Table values (country codes). */
  type Value = string

  /**
   * A tree node `{ip, cidr, key, value, children}`. `key` and `value` are
   * `undefined` (None) on the root and on the nodes the compaction passes create
   * without them.
   */
  datatype Node = Node(ip: int, cidr: int, key: Option<Key>, value: Option<Value>, children: seq<Node>) {
    function Block(): Key { Key(ip, cidr) }
  }

  /** A node without its children. */
  datatype Entry = Entry(ip: int, cidr: int, key: Option<Key>, value: Option<Value>)

  function Label(n: Node): Entry {
    Entry(n.ip, n.cidr, n.key, n.value)
  }

  function EntryBlock(e: Entry): Key {
    Key(e.ip, e.cidr)
  }

  /** The root `{ip: 0, cidr: 0, children: []}`. */
  function EmptyRoot(): Node {
    Node(0, 0, None, None, [])
  }

  /** `contains(parent, child)`: child lies in parent's range and has a longer prefix. */
  function Contains(parent: Key, child: Key): (r: bool)
    ensures 2 <= parent.cidr <= 32 ==>
      (r <==> child.cidr > parent.cidr && parent.ip <= child.ip < parent.ip + BlockSize(parent.cidr))
    ensures parent.cidr == 1 ==> !r
    ensures parent.cidr == 0 ==> (r <==> child.cidr > 0 && child.ip == parent.ip)
  {
    child.cidr > parent.cidr && child.ip >= parent.ip && child.ip < parent.ip + JsBlockSize(parent.cidr)
  }

  /** `precedes(a, b)`: a's range ends at or before b's first address. */
  function Precedes(a: Key, b: Key): (r: bool)
    ensures 2 <= a.cidr <= 32 ==> (r <==> a.ip + BlockSize(a.cidr) <= b.ip)
    ensures a.cidr == 1 ==> (r <==> a.ip - TWO31 <= b.ip)
  {
    a.ip + JsBlockSize(a.cidr) <= b.ip
  }

  /** One past the last address of a block (its first address when the prefix length is out of range). */
  function End(k: Key): int {
    k.ip + if 0 <= k.cidr <= 32 then BlockSize(k.cidr) else 0
  }

  /** A block the tree arithmetic handles exactly: aligned, inside the address space, prefix length 2..32. */
  predicate TreeBlock(k: Key) {
    2 <= k.cidr && ValidKey(k)
  }

  /** `c` lies strictly inside `p` (a longer prefix within p's range). */
  predicate Inside(p: Key, c: Key) {
    p.cidr < c.cidr && p.ip <= c.ip && End(c) <= End(p)
  }

  /** Siblings in address order without overlap. */
  predicate Sorted(cs: seq<Node>) {
    forall i, j :: 0 <= i < j < |cs| ==> End(cs[i].Block()) <= cs[j].ip
  }

  /** Every child is a tree block strictly inside its parent, siblings are sorted, recursively. */
  predicate WF(n: Node)
    decreases n
  {
    && Sorted(n.children)
    && (forall i :: 0 <= i < |n.children| ==>
          TreeBlock(n.children[i].Block()) && Inside(n.Block(), n.children[i].Block()))
    && (forall i :: 0 <= i < |n.children| ==> WF(n.children[i]))
  }

  /** A sibling list that could be the children of a node with block p. */
  predicate WFChildren(p: Key, cs: seq<Node>) {
    && Sorted(cs)
    && (forall i :: 0 <= i < |cs| ==> TreeBlock(cs[i].Block()) && Inside(p, cs[i].Block()))
    && (forall i :: 0 <= i < |cs| ==> WF(cs[i]))
  }

  /** A node fit to be inserted below a node with block p. */
  predicate Insertable(p: Key, n: Node) {
    TreeBlock(n.Block()) && Inside(p, n.Block()) && WF(n)
  }

  /** `treeSize`: the number of nodes in a subtree. */
  function Size(n: Node): (r: nat)
    decreases n
    ensures r >= 1
  {
    1 + SizeSeq(n.children)
  }

  function SizeSeq(cs: seq<Node>): nat
    decreases cs
  {
    if cs == [] then 0 else Size(cs[0]) + SizeSeq(cs[1..])
  }

  /** The labels of all strict descendants. */
  function Entries(n: Node): set<Entry>
    decreases n
  {
    EntriesSeq(n.children)
  }

  /** The labels of a node and its descendants. */
  function EntriesSelf(n: Node): set<Entry>
    decreases n
  {
    {Label(n)} + EntriesSeq(n.children)
  }

  function EntriesSeq(cs: seq<Node>): set<Entry>
    decreases cs
  {
    if cs == [] then {} else EntriesSelf(cs[0]) + EntriesSeq(cs[1..])
  }

  function Blocks(es: set<Entry>): set<Key> {
    set e | e in es :: EntryBlock(e)
  }
}
