/**
 * `treeTransform`, the tree stage of the build: the flat table becomes a
 * prefix tree, sibling runs are merged, the root's children are compacted,
 * and the tree is flattened back into a table. `TreeTransform` follows
 * src/build.mjs with the passes of src/tree.js; `UtilTreeTransform` follows
 * src/build.js with the older passes of src/util.js.
 */
module Transform {
  import opened Wrappers
  import opened PrefixMath
  import opened TreeNodes
  import opened TreeFacts
  import opened JsObjects
  import opened TreeInsert
  import opened TreeSearch
  import opened TreeMerge
  import opened TreeCompact
  import opened UtilTree

  /** Every key of the input is a block the tree handles. */
  predicate Blocks(t: JsMap<Key, Value>) {
    forall k :: k in t.vals ==> TreeBlock(k)
  }

  /** `out` is t again, keys wrapped: the same keys with the same values, nothing under `undefined`. */
  ghost predicate Flattens(t: JsMap<Key, Value>, out: Table) {
    && None !in out.vals
    && (forall k :: Some(k) in out.vals <==> k in t.vals)
    && (forall k :: k in t.vals ==> out.vals[Some(k)] == Some(t.vals[k]))
  }

  /** No two adjacent children carry the same value, so `safeMerge` finds nothing to merge. */
  predicate NoEqualNeighbours(cs: seq<Node>) {
    forall j :: 1 <= j < |cs| ==> cs[j].value != cs[j - 1].value
  }

  /**
   * `treeTransform` (src/build.mjs:104-120). `built` is the tree `tableToTree`
   * makes, `final` the tree after `safeMerge(tree, 'ZZ')` and
   * `findRearrangements`, and `merged` the count `safeMerge` reports. A table
   * of tree blocks builds a well-formed tree carrying exactly its entries; the
   * output is always the flattening of the final tree; and when nothing was
   * merged, the output is the input table again. When something was merged,
   * what `final` holds is what `TreeMerge.SafeMerge` (its `MergeTrace`) and
   * `TreeCompact.FindRearrangements` promise of their results.
   */
  method TreeTransform(t: JsMap<Key, Value>) returns (r: Result<Table>, merged: nat, ghost built: Node, ghost final: Node)
    requires Valid(t)
    ensures Blocks(t) ==> WF(built) && Entries(built) == TableEntries(t)
    ensures r.Ok? ==> r.value == TableOf(final) && Valid(r.value)
    ensures Blocks(t) && NoEqualNeighbours(built.children) ==> merged == 0
    ensures Blocks(t) && NoEqualNeighbours(built.children) && |built.children| < 3 ==> r.Ok?
    ensures Blocks(t) && merged == 0 && r.Ok? ==> final == built && Flattens(t, r.value)
  {
    merged, built, final := 0, EmptyRoot(), EmptyRoot();
    var tree := TableToTree(t);
    if tree.Err? {
      return Err(tree.error), merged, built, final;
    }
    built := tree.value;
    var transform, inside, _, _ := SafeMerge(tree.value, Some("ZZ"));
    if transform.Err? {
      return Err(transform.error), merged, built, final;
    }
    merged := transform.value.1;
    var compacted := FindRearrangements(transform.value.0);
    if compacted.Err? {
      return Err(compacted.error), merged, built, final;
    }
    final := compacted.value;
    var output := TreeToTable(compacted.value);
    TableOfValid(final);
    if Blocks(t) && merged == 0 {
      RoundTrip(t, built);
    }
    r := Ok(output);
  }

  /** A child of a tree carrying t's entries has the prefix length of one of t's keys. */
  lemma ChildFromTable(t: JsMap<Key, Value>, n: Node, i: nat)
    requires Entries(n) == TableEntries(t) && i < |n.children|
    ensures exists k :: k in t.vals && n.children[i].cidr == k.cidr
  {
    EntriesSeqHas(n.children, i);
    assert Label(n.children[i]) in TableEntries(t);
  }

  /**
   * `treeTransform` (src/build.js:233-250) with `util.tableToTree`,
   * `util.safeMerge`, the identity `util.findRearrangements` and
   * `util.treeToTable`, which is `treeToTable`. The tree is built with the
   * corrected insert. The built tree carries exactly the input's entries,
   * and is well formed for a table of tree blocks; keys whose prefix lengths
   * are at most 32 never make it fail; each merge removes one node; and when
   * nothing was merged, or no adjacent children share value and prefix
   * length, the output is the input table again.
   */
  method UtilTreeTransform(t: JsMap<Key, Value>) returns (r: Result<Table>, merged: nat, ghost built: Node, ghost final: Node)
    requires Valid(t)
    ensures SameHeader(built, EmptyRoot()) && Entries(built) == TableEntries(t)
    ensures Blocks(t) ==> WF(built)
    ensures (forall k :: k in t.vals ==> k.cidr <= 32) ==> r.Ok?
    ensures r.Ok? ==> r.value == TableOf(final) && Valid(r.value) && Size(final) + merged == Size(built)
    ensures (forall j :: 1 <= j < |built.children| ==> !Candidate(built.children, j)) ==> r.Ok? && merged == 0
    ensures r.Ok? && merged == 0 ==> final == built && Flattens(t, r.value)
  {
    var tree := UtilTableToTree(t);
    built := tree;
    r, merged, final := UtilMergeAndFlatten(t, tree);
  }

  /**
   * The same stage with `util.tableToTree` as written, whose binary-search
   * insert can misorder siblings: every promise above except well-formedness
   * still holds.
   */
  method UtilTreeTransformAsWritten(t: JsMap<Key, Value>) returns (r: Result<Table>, merged: nat, ghost built: Node, ghost final: Node)
    requires Valid(t)
    ensures SameHeader(built, EmptyRoot()) && Entries(built) == TableEntries(t)
    ensures (forall k :: k in t.vals ==> k.cidr <= 32) ==> r.Ok?
    ensures r.Ok? ==> r.value == TableOf(final) && Valid(r.value) && Size(final) + merged == Size(built)
    ensures (forall j :: 1 <= j < |built.children| ==> !Candidate(built.children, j)) ==> r.Ok? && merged == 0
    ensures r.Ok? && merged == 0 ==> final == built && Flattens(t, r.value)
  {
    var tree := UtilTableToTreeAsWritten(t);
    built := tree;
    r, merged, final := UtilMergeAndFlatten(t, tree);
  }

  /** The part of the util stage after the tree is built: merge, then flatten. */
  method UtilMergeAndFlatten(t: JsMap<Key, Value>, tree: Node) returns (r: Result<Table>, merged: nat, ghost final: Node)
    requires Valid(t) && Entries(tree) == TableEntries(t)
    ensures (forall k :: k in t.vals ==> k.cidr <= 32) ==> r.Ok?
    ensures r.Ok? ==> r.value == TableOf(final) && Valid(r.value) && Size(final) + merged == Size(tree)
    ensures (forall j :: 1 <= j < |tree.children| ==> !Candidate(tree.children, j)) ==> r.Ok? && merged == 0
    ensures r.Ok? && merged == 0 ==> final == tree && Flattens(t, r.value)
  {
    merged, final := 0, EmptyRoot();
    if forall k :: k in t.vals ==> k.cidr <= 32 {
      forall c | c in tree.children
        ensures c.cidr <= 32
      {
        var i :| 0 <= i < |tree.children| && tree.children[i] == c;
        ChildFromTable(t, tree, i);
      }
    }
    var transform, _ := UtilSafeMerge(tree, Some("ZZ"));
    if transform.Err? {
      return Err(transform.error), merged, final;
    }
    merged := transform.value.1;
    // `util.findRearrangements` returns its argument.
    final := transform.value.0;
    var output := TreeToTable(transform.value.0);
    TableOfValid(final);
    if merged == 0 {
      RoundTrip(t, tree);
    }
    r := Ok(output);
  }
}
