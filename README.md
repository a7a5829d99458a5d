# ip2country: a Dafny model of the prefix-table engine

ip2country turns BGP routing data into a table from `"ip/cidr"` keys to
two-letter country codes, answered by longest-prefix match. This project
models the engine that builds and compacts that table, and proves what it
promises:

- **32-bit block arithmetic** (`prefix_math.dfy`, `tree_nodes.dfy`).
  `prefix`, `contains`, `precedes` and the sibling computation of
  `reduceIP2CountryMap`. JavaScript's `1 << n` (count mod 32, signed
  result) and `x ^ y` (ToInt32) are written out exactly. So `contains` with
  a /1 parent is always false, and a /0 parent only contains blocks
  starting at its own address. `prefix` is imported from `./lookup.js`,
  which does not define it; it is taken as the primitive "clear the low
  32 - c bits".
- **The containment tree of src/tree.js.**
  - `tree_insert.dfy`: `insertInTree`, `insertAllInTree`, `tableToTree`.
  - `tree_search.dfy`: `treeToTable`, `findKey`, `slow_findKey`,
    `treeSize`, `firstOf`, `lastOf`, `clone`.
  - `tree_span.dfy`: `beforeNode`, `afterNode`, `span`, `createSpan`.
  - `tree_merge.dfy`: `safeMerge`.
  - `tree_compact.dfy`: `dedup`, `findRearrangements`.
  
  A node is the datatype `Node(ip, cidr, key, value, children)`, where a
  missing `key` or `value` is JavaScript's `undefined`. The passes that
  splice `node.children` in place are methods that rebuild the children
  sequence splice by splice and return the new node. A thrown exception is
  an `Err` result.
- **The older tree of src/util.js** (`util_tree.dfy`): `resolve`, `span`,
  `insertInTree`, `tableToTree`, `safeMerge`. Its `contains`, `findKey`, `fk` and
  `treeToTable` are the same code as `contains`, `findKey`, `slow_findKey` and `treeToTable` in src/tree.js, so they are modelled
  once, by `TreeNodes.Contains`, `TreeSearch.FindKey`,
  `TreeSearch.SlowFindKey` and `TreeSearch.TreeToTable`. Its `findRearrangements` is the identity; it is
  modelled inside `Transform.UtilTreeTransform`.
- **The flat-table passes** of src/build.mjs, repeated almost verbatim in
  src/build.js, are modelled once (`flat_map.dfy`, `dedupe.dfy`):
  `mergeIP2CountryMap`, `reduceIP2CountryMap` and `dedupeIP2CountryMap`.
  `treeTransform` of both files is in `transform.dfy`. A JavaScript object
  whose key order matters is a `JsMap`: a key sequence in insertion order
  plus a map (`js_objects.dfy`).
- **The runtime lookup of src/lookup.js** (`lookup.dfy`). The nested table
  `table[base][cidr]` is a parameter instead of a free global.
- **`parseAS2CountryMap` of src/as2country.mjs** (`as_country.dfy`).
- **The RIB line parsers of src/historicBGPData.js** (`rib_parse.dfy`).
  `parseRIBHeader`, `parseRIBLine` and `parseASLine` are methods of a class
  that holds the `offsets` array and the `seen` and `map` objects they
  update.

The Buffer conversion of a string to a byte is a function parameter
`toOctet`. Its result is a byte, which is all the model needs of it.
`readInt32BE` and `readUInt32BE` of four bytes are written out
(`js_text.dfy`).

Where the code and its documentation disagree, the model follows the code:

- `span` starts the walk at `a.cidr`, not at the smaller of the two prefix
  lengths.
- When no shorter block covers both inputs, `span` returns the /0 block
  without checking it.
- The blocks from `afterNode` and `createSpan` carry no key.
- `dedup` splices a child's `children` array in as ONE element. It does not
  flatten the array into the list.
- `findRearrangements` sums `treeSize` over `[spliceStart, spliceEnd)`,
  which leaves out the last covered child, and replaces only that range.
- `safeMerge` never reads `parentValue`.
- `util.span` sets no key, so merged nodes flatten under `undefined`.
- `reduceIP2CountryMap` computes the sibling as `prefix ^ (1 << (32 -
  cidr))`, a signed 32-bit result. Below 128.0.0.0 this is the other half of
  the parent block (`FlatMap.SiblingLowerHalf`). From 128.0.0.0 up it is
  negative (`FlatMap.SiblingUpperNegative`; 200.0.0.0/8 gets
  201.0.0.0 - 2^32, `FlatMap.SiblingExamples`). Table keys are never
  negative, so no /2../32 key in the upper half of the address space ever
  collapses (`FlatMap.NoUpperCollapse`): reduce only compacts the lower
  half. The model keeps this behaviour.

One consequence is proved: on a well-formed node, `findRearrangements`
either returns the node unchanged or ends in an error: a throw, or a case
outside the model when a fill would have to leave the /2..32 range that
`afterNode` handles (`TreeCompact.FindRearrangements`,
`TreeCompact.WideCandidateThrows`).

The expectations of the covering-span test (spec/tree.spec.js:53-68) hold
in the model: `TreeSpan.SpanBeforeExample` and `TreeSpan.SpanAfterExample`
prove that the code computes both expected spans, a /14 and a /15.

## Model

| member | source | states |
|---|---|---|
| `PrefixMath.ToInt32` | src/build.mjs:48 | ECMAScript ToInt32: the result is the signed 32-bit value congruent to x mod 2^32, and x itself when it is in 0..2^31 |
| `PrefixMath.Shl1` | src/tree.js:257 | `1 << n` is 2^(n mod 32) when n mod 32 < 31, and -2^31 when n mod 32 is 31 |
| `PrefixMath.JsBlockSize` | src/tree.js:18 | `1 << (32 - cidr)` is the block size 2^(32-cidr) for cidr 2..32, -2^31 for /1 and 1 for /0 |
| `PrefixMath.Prefix` | src/build.mjs:87 | `prefix(a, c)` is the start of the aligned /c block that holds a: a multiple of the block size, at most a, within one block of it, and a itself when a is aligned |
| `PrefixMath.JsFlipBit` | src/build.mjs:48 | `x ^ (1 << n)` yields a signed 32-bit integer |
| `PrefixMath.JsFlipBitFlips` | src/build.mjs:48 | for an unsigned 32-bit x and n below 32, the bit pattern of `x ^ (1 << n)` agrees with x below bit n and above it, differs at bit n, and the result is negative exactly when that pattern has its top bit set |
| `PrefixMath.PrefixOfPrefix` | src/build.mjs:85-88 | prefixing to c1 and then to a shorter c2 is prefixing to c2, so the dedupe walk's running prefix is the key's /c prefix |
| `PrefixMath.PrefixValid` | src/build.mjs:51 | the shorter prefix of a valid block is a valid block |
| `PrefixMath.NestedOrDisjoint` | src/tree.js:124-129 | two aligned blocks are nested or disjoint, so the "Malformed tree" case cannot arise between aligned blocks |
| `TreeNodes.Contains` | src/tree.js:15-19 | for a parent of prefix length 2..32, `contains` holds exactly when the child is longer and starts inside the parent's range; never for a /1 parent; for a /0 parent only at the parent's own address |
| `TreeNodes.Precedes` | src/tree.js:256-258 | for a of prefix length 2..32, a precedes b exactly when a's range ends at or before b's start; for /1 the signed shift moves the end 2^31 back |
| `TreeInsert.FindRun` | src/tree.js:82-111 | the binary search and the three scans find the run of children overlapping the node: the child before the run precedes the node, the first run child does not, the node precedes no run child, and it precedes the child after the run |
| `TreeInsert.ClassifyRun` | src/tree.js:112-130 | the loop over the run stops at the first child with the node's block (replace), the first that contains the node (descend), or the first that neither contains nor is contained (malformed); otherwise every run child is swallowed by the node |
| `TreeInsert.RunClassified` | src/tree.js:124-129 | in a well-formed tree the malformed branch is never taken, a child descended into strictly contains the node, and a spliced run lies strictly inside the node |
| `TreeInsert.InsertInTree` | src/tree.js:81-144 | for a well-formed tree and an insertable node, the insertion succeeds and the tree stays well formed: children sorted, non-overlapping, strictly inside the parent; when the node's subtree shares no block with the tree below the root, the labels afterwards are the old ones minus any with the node's block, plus the node's subtree; the header never changes and the size grows by at most the node's |
| `TreeInsert.ReplaceChild` | src/tree.js:113-122 | on an exact (ip, cidr) match the old node's children are reinserted below the new node, which takes the old node's place, so the new value wins |
| `TreeInsert.DescendChild` | src/tree.js:124-125 | a child that contains the node receives it recursively, and the tree stays well formed with the node's labels added |
| `TreeInsert.SpliceRun` | src/tree.js:132-138 | the node takes the place of the run of children it contains, keeping sibling order, and those children are inserted below it |
| `TreeInsert.InsertAllInTree` | src/tree.js:72-76 | inserting a well-formed list below a well-formed root keeps it well formed and adds exactly the list's labels |
| `TreeInsert.SortByCidr` | src/tree.js:31-36 | the sorted keys are a permutation of the keys, ordered by non-decreasing prefix length |
| `TreeInsert.TableToTree` | src/tree.js:26-57 | a table of aligned blocks with cidr at least 2 builds a well-formed tree whose labels are exactly the table's keys with their values, and whose root keeps block /0 with no key or value |
| `TreeSearch.TreeToTable` | src/tree.js:441-456 | the method builds the table that `TableOf` describes |
| `TreeSearch.TableOfSeqIsUnion` | src/tree.js:450-454 | the loop lays each child's key and then its subtree's entries over the table built so far, later writes winning |
| `TreeSearch.TableOfVals` | src/tree.js:441-456 | when the keys of the descendants are unique, the flattened table holds exactly those keys, each with its node's value, and the root contributes nothing |
| `TreeSearch.RoundTrip` | src/tree.js:441-456 | flattening a tree that carries exactly a table's entries gives back the table: the same keys, the same values, nothing under `undefined` |
| `TreeSearch.TreeSize` | src/tree.js:404-414 | `treeSize` is one plus the sizes of the children |
| `TreeSearch.SizeCountsLabels` | src/tree.js:404-414 | in a well-formed tree, `treeSize` is the number of distinct labels of the subtree |
| `TreeSearch.FindKey` | src/tree.js:149-162 | a node that `findKey` returns carries the key and belongs to the tree |
| `TreeSearch.FindKeyFound` | src/tree.js:149-162 | the recursive search returns only a node of the tree carrying the key |
| `TreeSearch.FindKeyMissesDescendants` | src/tree.js:149-162 | below a tree whose nodes carry their own blocks as keys, `findKey` finds nothing under the root, whatever the key |
| `TreeSearch.FindKeyMissesChild` | src/tree.js:149-162 | in the well-formed tree for {10.0.0.0/8: "US"}, `findKey` misses the key 10.0.0.0/8 and `slow_findKey` finds it |
| `TreeSearch.FindKeyFixedFinds` | src/tree.js:149-162 | the corrected search, which also descends into the child whose block is the key, finds every label of a well-formed keyed tree |
| `TreeSearch.SlowFindKey` | src/tree.js:166-179 | the method returns the first node in pre-order that carries the key |
| `TreeSearch.SlowFindFinds` | src/tree.js:166-179 | `slow_findKey` finds a node exactly when some node of the tree carries the key, and the node it returns carries it |
| `TreeSearch.FirstOf` | src/tree.js:417-425 | null exactly when no child has the value; otherwise the first child with it |
| `TreeSearch.LastOf` | src/tree.js:428-436 | null exactly when no child has the value; otherwise the last child with it |
| `TreeSearch.CloneKeeps` | src/tree.js:236-240 | a clone has no key but the same block, value, well-formedness, labels below its root, size and flattened table |
| `TreeSpan.BeforeNode` | src/tree.js:244-247 | the node before a block is a single address that ends exactly where the block starts, so it precedes the block; it carries the block's value and no key |
| `TreeSpan.AfterNode` | src/tree.js:250-253 | the node after a block is the /32 at the block's end for prefix lengths 2..32; the signed shift gives ip - 2^31 for /1 and ip + 1 for /0 |
| `TreeSpan.Neighbours` | src/tree.js:244-258 | the neighbours of a tree block are adjacent to it and not contained in it |
| `TreeSpan.NeighboursExample` | spec/tree.spec.js:39-51 | around 10.2.0.0/16 lie 10.1.255.255/32 and 10.3.0.0/32 |
| `TreeSpan.SpanBlock` | src/tree.js:183-194 | the walk returns the first block shorter than a that contains both inputs, starting at a's prefix length from the lower address, or the unchecked /0 block |
| `TreeSpan.Span` | src/tree.js:182-195 | the span node has the covering block, its own key and a's value, and no children |
| `TreeSpan.SpanMostSpecific` | src/tree.js:185-192 | no aligned block strictly between the span and a's prefix length contains both inputs |
| `TreeSpan.SpanUnique` | src/tree.js:182-195 | at most one block meets the description of the span |
| `TreeSpan.SpanValid` | src/tree.js:186-188 | for two tree blocks, a span above /0 is a tree block strictly containing both |
| `TreeSpan.SpanBeforeExample` | spec/tree.spec.js:53-62 | the span of 10.2.0.0/16's predecessor 10.1.255.255 with it is the /14 at prefix(10.1.255.255, 14) |
| `TreeSpan.SpanAfterExample` | spec/tree.spec.js:64-67 | the span of 10.2.0.0/16's successor 10.3.0.0 with it is the /15 at prefix(10.2.0.1, 15) |
| `TreeSpan.GrowBlock` | src/tree.js:206-214 | one filler starts where the previous block ends and is the largest aligned block there that neither overlaps the previous block nor passes `to` |
| `TreeSpan.CreateSpan` | src/tree.js:199-219 | every filler is a keyless leaf with the given value; from an aligned start of prefix length 2..32 the result is the greedy fill: empty when the gap is empty, otherwise contiguous aligned blocks from the end of `from` up to exactly `to.ip`, each the largest that fits |
| `TreeSpan.GreedyUnique` | src/tree.js:209-211 | a fill block at an address is the one largest aligned block there that fits before `to` |
| `TreeSpan.CreateSpanSimple` | spec/tree.spec.js:70-82 | the gap between 10.2.0.0/16 and 10.4.0.0/16 is filled by the single block 10.3.0.0/16 |
| `TreeSpan.CreateSpanComplex` | spec/tree.spec.js:84-94 | the gap between 10.2.0.0/17 and 10.4.255.0/24 is filled by ten blocks: /17, /16, /17, /18, ..., /24 |
| `TreeMerge.ScanForward` | src/tree.js:281-288 | the forward scan collects the unbroken run of following children that the span contains, and flags one whose value differs |
| `TreeMerge.ScanBackward` | src/tree.js:289-296 | the backward scan does the same for the preceding children |
| `TreeMerge.SpanInsideIff` | src/tree.js:277 | the span of a pair is strictly inside the node exactly when the block `span` returns is a tree block inside it |
| `TreeMerge.MergeAt` | src/tree.js:276-321 | one merge attempt on the pair at i: past /32 it fails; otherwise the span covers both nodes and the sweep takes exactly the unbroken runs of neighbours the span contains; it declines (returns no node) exactly when one swept neighbour has a value other than the pair's; when it merges, the header is kept, the list shrinks by at least one plus the swept neighbours, the count of swept neighbours is returned, and on a well-formed node with the span inside it the result is well formed and its labels are those of the kept children, the span, and everything that was below the pair and the swept neighbours |
| `TreeMerge.Absorb` | src/tree.js:298-321 | the pair and the swept neighbours leave the child list and their children go below the span, which is inserted into the node; the returned count is the number of swept neighbours; when the span covers the pair and is a tree block inside a well-formed node, the node stays well formed and its labels become the kept children's, the span's and the ones below the removed run |
| `TreeMerge.GatherChildren` | src/tree.js:301-318 | the span keeps its own header while it receives the children of the pair and then of the swept neighbours (forward ones first, then backward ones); when the span is a tree block covering them inside a well-formed node, no insertion fails, the span stays well formed and its labels are exactly the labels below the swept run |
| `TreeMerge.MergedCovers` | src/tree.js:301-302 | the children of both nodes of the pair fit below their span |
| `TreeMerge.KeptApart` | src/tree.js:281-296 | a child the sweep stops at, and every child beyond it, lies wholly before or wholly after the span, so it shares no address with the span |
| `TreeMerge.BelowSeqReversed` | src/tree.js:311-318 | walking the backward neighbours in reverse order gathers the same labels as walking them forward |
| `TreeMerge.TraceExtend` | src/tree.js:268-325 | a trace of merge steps extended by one more merge is a trace one step longer, so the merge count `nm` counts the merges of the loop |
| `TreeMerge.SafeMerge` | src/tree.js:268-325 | the result is reached from the node by a trace of exactly `nm` merge steps, each a merge of an equal-valued adjacent pair as `MergeAt` states it (span covers the pair, swept neighbours share the value, labels replaced by the span plus everything below); the count is at most the number of children removed; every attempt it records is an equal-valued adjacent pair of a node on the trace, and `inside` holds exactly when the span of every attempt was a tree block strictly inside its node; a walk that merges nothing returns the node unchanged, having tried every equal-valued pair and been declined at each; with no adjacent equal values the count is 0; a well-formed node whose attempted spans all lie inside it always succeeds and stays well formed |
| `TreeMerge.TriedMeaning` | src/tree.js:276-277 | the recursive attempt records mean that every recorded attempt is an equal-valued pair on the trace, and that `inside` is the conjunction of their spans lying inside |
| `TreeCompact.Dedup` | src/tree.js:223-233 | every child with the node's value is replaced, as one element, by its own children array, so the list keeps its length; when the node's value is `undefined` and a child's is too, reading the value throws |
| `TreeCompact.SlotsSize` | src/tree.js:404-414 | `treeSize` of a node whose children include an array throws; otherwise it is one plus the children's sizes |
| `TreeCompact.CountPositive` | src/tree.js:344-349 | a value has a positive count exactly when some child carries it |
| `TreeCompact.CountValues` | src/tree.js:344-349 | `vcounts` has a key for exactly the children's values, each with how many children carry it |
| `TreeCompact.MaxKey` | src/tree.js:351-357 | the chosen value has the largest count, and is the first in key order to reach it |
| `TreeCompact.Covered` | src/tree.js:361-367 | the candidate's children are exactly the children it contains, in order, with their indexes |
| `TreeCompact.Fill` | src/tree.js:369-386 | the new child list is, in order, the gap before the first covered child, that child, the next gap, ..., the last child and the gap up to `afterNode`; each gap is keyless leaves carrying the node's value and, where `createSpan` stays in exact arithmetic, the greedy fill between the gap's ends; the loop fails only when some gap leaves that arithmetic; every covered child appears in the result |
| `TreeCompact.SizeBetween` | src/tree.js:390-393 | the sum is the size of children [spliceStart, spliceEnd), and 0 when the range is empty |
| `TreeCompact.Replace` | src/tree.js:395-398 | sizing the candidate throws exactly when `dedup` left an array among its children; otherwise the run is replaced only when the candidate's subtree has fewer nodes than the run, so the tree shrinks, and an empty range changes nothing |
| `TreeCompact.RunReplacedShrinks` | src/tree.js:395-398 | replacing a run of children by a smaller subtree makes the whole tree smaller |
| `TreeCompact.FindRearrangements` | src/tree.js:330-401 | with fewer than three children the node comes back unchanged; any change replaces a run of children and shrinks the tree; on a well-formed node the result is the node itself |
| `TreeCompact.Rearrange` | src/tree.js:358-400 | after the span, the node is either unchanged or a run is replaced by a smaller subtree |
| `TreeCompact.NarrowCandidate` | src/tree.js:359-365 | a span that falls back to /1 or /0 covers at most one child of a well-formed node |
| `TreeCompact.WideCandidateThrows` | src/tree.js:359-395 | when the span has prefix length 2 or more, some child it covers carries the candidate's value, so `dedup` leaves an array among the candidate's children, on which `treeSize` throws |
| `Transform.TreeTransform` | src/build.mjs:105-120 | a table of tree blocks builds a well-formed tree with exactly its entries; the output is always the flattened final tree; when no two adjacent top-level children share a value nothing is merged, and with fewer than three of them nothing throws; with nothing merged the final tree is the built one and the output is the input table again |
| `Transform.UtilTreeTransform` | src/build.js:234-251 | the util build, with the corrected insert, keeps exactly the input's entries and is well formed for a table of tree blocks; it never fails on prefix lengths up to 32, removes one node per merge, and with nothing merged gives back the input table |
| `Transform.UtilTreeTransformAsWritten` | src/build.js:234-251 | the util build with the as-written insert still keeps exactly the input's entries, never fails on prefix lengths up to 32, removes one node per merge, and with nothing merged gives back the input table |
| `Transform.UtilMergeAndFlatten` | src/build.js:243-249 | merging and flattening a tree that carries the input's entries yields a valid table of the merged tree, never fails on prefix lengths up to 32, and with nothing merged is the input table |
| `UtilTree.Resolve` | src/util.js:11-24 | the result is the key of the longest prefix of ip, from /32 down to /1, with a truthy entry, and that block covers ip; null when none has one; /0 is never tried |
| `UtilTree.UtilSpan` | src/util.js:134-148 | the same covering block as `span`, with a's value and no key |
| `UtilTree.JsEnd` | src/util.js:76 | `ip + (1 << (32 - cidr))` is the block's end for prefix lengths 2..32 |
| `UtilTree.BinarySearch` | src/util.js:72-87 | the search ends at an index of the children when there are any, at 0 otherwise |
| `UtilTree.UtilInsertInTree` | src/util.js:70-98 | the method builds the tree that `UtilInserted` describes: descend into the child at the search position if it contains the node, else splice the node in there, one later if that child ends at or before the node |
| `UtilTree.UtilInsertedKeeps` | src/util.js:70-98 | the insertion never throws and never drops or replaces a label: the header stays, the labels are the old ones plus the node's subtree, and the sizes add up |
| `UtilTree.SampleRootWF` | src/util.js:70-98 | the sample root with children 10.0, 10.1, 10.2, 10.3, 10.4 and 10.6 (all /16) is well formed |
| `UtilTree.SampleSearch` | src/util.js:72-87 | on that sample, the binary search for 10.5.0.0/16 stops at index 3 |
| `UtilTree.SampleMisordered` | src/util.js:93-96 | splicing 10.5.0.0/16 in at index 4 of the sample leaves 10.5 before 10.4 |
| `UtilTree.UtilInsertMisplaces` | src/util.js:72-96 | in a well-formed root with children 10.0, 10.1, 10.2, 10.3, 10.4 and 10.6 (all /16), inserting 10.5.0.0/16 breaks the sibling order |
| `UtilTree.SampleUtilInsert` | src/util.js:72-96 | in that sample the binary search stops at index 3 and the node is spliced in at index 4, before 10.4 |
| `UtilTree.FixedInsertInTree` | src/util.js:70-98 | the corrected insert, a linear scan in place of the binary search, builds the tree `FixedInserted` describes |
| `UtilTree.FixedInsertedKeeps` | src/util.js:70-98 | the corrected insert keeps every label and adds the node's |
| `UtilTree.FixedInsertedWF` | src/util.js:70-98 | the corrected insert keeps a well-formed tree well formed when no block in it lies within the node's |
| `UtilTree.SampleFixedInsert` | src/util.js:70-98 | on the sample, the corrected insert places 10.5.0.0/16 at index 5, between 10.4 and 10.6 |
| `UtilTree.FixedInsertsInOrder` | src/util.js:70-98 | on the sample, the corrected insert keeps the tree well formed |
| `UtilTree.UtilTableToTree` | src/util.js:42-65 | inserting in ascending prefix length order keeps exactly the table's entries, and a table of tree blocks gives a well-formed tree |
| `UtilTree.UtilTableToTreeAsWritten` | src/util.js:42-65 | with the binary-search insert of src/util.js:70-98, the built tree still keeps exactly the table's entries |
| `UtilTree.UtilMergeAt` | src/util.js:167-193 | for a pair with equal value and prefix length, the attempt declines exactly when a neighbour in the span's unbroken runs has another value; otherwise the pair is replaced, in place, by its keyless span adopting both children lists; prefix lengths above 32 are outside the model |
| `UtilTree.MergedFacts` | src/util.js:185-192 | one merge removes one child and one node and keeps every label below the children |
| `UtilTree.UtilSafeMerge` | src/util.js:157-197 | the result is reached from the node by a trace of exactly `nm` merges, each taking a pair with equal value and prefix length whose span covers no neighbour with another value, and replacing it by the keyless span carrying the pair's value and both children lists; each merge removes one node and no label below the children is lost; a walk that merges nothing returns the node unchanged and was declined at every candidate pair; with no candidate pair the count is 0; children of prefix length at most 32 always succeed |
| `UtilTree.UtilTraceExtend` | src/util.js:185-192 | a trace of merges extended by one more merge is a trace one step longer |
| `FlatMap.CountryOf` | src/build.mjs:20 | `as2country[as] \|\| 'ZZ'`: the AS's country when present and non-empty, else 'ZZ' |
| `FlatMap.Merge` | src/build.mjs:9-26 | the keys and their order stay; each value becomes the country of the key's AS, or 'ZZ' |
| `FlatMap.MergeStep` | src/build.mjs:19-21 | each iteration of the loop writes the country of one more key |
| `FlatMap.Sibling` | src/build.mjs:48 | the sibling key has the same prefix length and an address in the signed 32-bit range, as `^` leaves it |
| `FlatMap.SiblingLowerHalf` | src/build.mjs:48-50 | below 128.0.0.0 the sibling of an aligned /2../32 key is an aligned, non-negative address other than the key's, with the same parent prefix `prefix(prefix, cidr-1)` that the collapse writes to |
| `FlatMap.SiblingUpperNegative` | src/build.mjs:48 | from 128.0.0.0 up, the sibling address of an aligned /2../32 key is negative |
| `FlatMap.NoUpperCollapse` | src/build.mjs:48-50 | in a table of non-negative keys, a /2../32 key from 128.0.0.0 up never collapses |
| `FlatMap.SiblingExamples` | src/build.mjs:48 | 10.0.0.0/8 pairs with 11.0.0.0/8, while 200.0.0.0/8 pairs with 201.0.0.0 - 2^32 |
| `FlatMap.Target` | src/build.mjs:49-54 | a collapsing key writes to `prefix(prefix, cidr-1)/(cidr-1)`, any other key to itself; a collapse outside /1..33 leaves the prefix arithmetic |
| `FlatMap.FoldFails` | src/build.mjs:44-55 | a run of writes fails exactly when one of them has no target |
| `FlatMap.FoldWrites` | src/build.mjs:44-55 | a run that succeeds leaves a valid table of exactly the targets written, each with the value of its last write, and counts the collapses |
| `FlatMap.FoldWeight` | src/build.mjs:44-55 | the total prefix length of the output drops below that of the input by at least the number of collapses |
| `FlatMap.FoldCopies` | src/build.mjs:53 | keys copied to themselves rebuild the same key list with no collapse |
| `FlatMap.PassFacts` | src/build.mjs:44-56 | one pass: each output key holds the value of the last input key written there, every output value was an input value, the count is the number of collapsing keys, and the weight drops |
| `FlatMap.ReducePass` | src/build.mjs:44-56 | the method, which only reads its input, computes the run of writes |
| `FlatMap.PassStable` | src/build.mjs:57-64 | a table where no key's sibling holds the same value is a fixpoint of the pass |
| `FlatMap.ValidTarget` | src/build.mjs:45-54 | in a table of valid keys every iteration has a target: 0.0.0.0/0, the one key below /1, never collapses because its sibling 1/0 is not a valid key |
| `FlatMap.PassValid` | src/build.mjs:44-56 | a pass over a table of valid keys succeeds and writes only valid keys, each parent prefix being a valid block |
| `FlatMap.Reduce` | src/build.mjs:30-65 | a table of valid keys always reduces, to a table of valid keys; the result has no key whose sibling key holds the same value, holds only input values, and a stable input comes back unchanged |
| `Dedupe.Nearest` | src/build.mjs:85-94 | the longest prefix length up to c at which the address has a truthy entry, or none |
| `Dedupe.NearestAt` | src/build.mjs:85-94 | the walk meets a truthy prefix at exactly c0 when none is present between c0 and c |
| `Dedupe.NearestNone` | src/build.mjs:85-94 | the walk meets no truthy prefix when none is present up to c |
| `Dedupe.WalkStep` | src/build.mjs:86-93 | one step marks the key on an equal truthy prefix, stops on a different one, and goes on past a missing one |
| `Dedupe.IsDup` | src/build.mjs:84-94 | the walk marks a key exactly when its nearest shorter truthy prefix has the same value; a key longer than /33 leaves the prefix arithmetic and is an error |
| `Dedupe.KeptMembers` | src/build.mjs:95-97 | a key is kept exactly when it is an input key that is no duplicate |
| `Dedupe.DedupeKeep` | src/build.mjs:95-97 | a kept key is appended to the output with its own value |
| `Dedupe.DedupeMap` | src/build.mjs:69-102 | the pass fails exactly when some key is longer than /33; otherwise the output is a valid sub-table of the input, in input order, holding exactly the non-duplicates with their values, and it gives every address the same longest-prefix match as the input |
| `Dedupe.DedupedFacts` | src/build.mjs:95-97 | only whole entries are removed and no value is altered |
| `Dedupe.DedupeKeepsLpm` | src/build.mjs:67-98 | for every address and bound, the longest truthy block up to that bound holds the same value in both tables |
| `Dedupe.DedupeKeepsLookups` | src/build.mjs:67-68 | longest-prefix match over the pruned table answers as over the input, for every address |
| `Lookup.ClassCOf` | src/lookup.js:7-21 | a string is 'unknown' exactly when it has fewer than four dot-separated parts; a number always has a base |
| `Lookup.ClassCIsPrefix` | src/lookup.js:15-19 | for four parts, the base (read unsigned) is the address's /24 prefix, inside the 32-bit space |
| `Lookup.ClassCSignedMisplaces` | src/lookup.js:15-19 | as written, 128.208.4.1 gets the base 128.208.5.0 - 2^32; read unsigned it is 128.208.4.0 |
| `Lookup.First` | src/lookup.js:43-47 | the first cidr from hi down to 9 that the row holds, none when there is none |
| `Lookup.FindCidr` | src/lookup.js:43-47 | the inner loop returns the first cidr the row holds |
| `Lookup.Search` | src/lookup.js:40-51 | a hit is at an offset 0..15, at a base the table has, with the first cidr from 24 - offset down to 9 that the row holds |
| `Lookup.ScanReadsSearch` | src/lookup.js:41-45 | the value returned is `table[b][c]` at the hit, 'unknown' when there is none |
| `Lookup.Probe` | src/lookup.js:40-52 | the search loop returns the value the scan from the /24 base describes |
| `Lookup.LookupIp` | src/lookup.js:30-53 | the exported function returns the answer: 'unknown' for a falsy or unparsable ip, else the scan's value |
| `Lookup.SearchMisses` | src/lookup.js:40-51 | every offset before the hit misses, the hit's base is the base widened that often, and there is no hit exactly when all 16 offsets miss |
| `Lookup.AllMissUnknown` | src/lookup.js:52 | when all 16 bases miss, the result is 'unknown' |
| `Lookup.UnknownCases` | src/lookup.js:10-38 | a falsy ip, a string with fewer than four parts, or a miss at all 16 offsets answers 'unknown' |
| `Lookup.ScanMisses` | src/lookup.js:40-52 | a scan from a /24 base that finds no hit answers 'unknown' |
| `Lookup.ClassCOfSome` | src/lookup.js:7-21 | an ip naming an address gets that address less its remainder mod 256 as its base |
| `Lookup.AnswerOfBase` | src/lookup.js:30-52 | a truthy ip with a base is answered by the scan from that base |
| `Lookup.ClassCOfAddress` | src/lookup.js:7-21 | the class C is 'unknown' exactly when the ip names no address, and otherwise the address minus its remainder mod 256 |
| `Lookup.ClassCIsBlock` | src/lookup.js:19 | for a non-negative address, `ip - ip % 256` is its /24 prefix |
| `Lookup.RealignPrefix` | src/lookup.js:50 | re-aligning the /(24 - o) prefix to `256 << (o + 1)` gives the /(24 - o - 1) prefix |
| `Lookup.HitIsPrefix` | src/lookup.js:40-51 | a search started from the /(24 - o) prefix of an address hits at the address's own /(24 - offset) prefix |
| `Lookup.ScanCovers` | src/lookup.js:41-45 | a hit at cidr c returns the table's value for the /(24 - offset) prefix of the address, and the block b/c covers the address |
| `Lookup.AnswerCovers` | src/lookup.js:23-52 | for a truthy ip naming a non-negative address, the answer is the scan from the address's /24 prefix |
| `AsCountry.Assign` | src/as2country.mjs:12-14 | after the inner loop, every AS of the list maps to the country and every other entry is unchanged |
| `AsCountry.LastListing` | src/as2country.mjs:11-15 | the index of the last country, in key order, whose list holds the AS |
| `AsCountry.ParseAs2CountryMap` | src/as2country.mjs:7-19 | the nested loops build the inverted dictionary and only read their input |
| `AsCountry.InvertedMeaning` | src/as2country.mjs:11-15 | an AS is a key exactly when some list holds it, and its country is the last in key order whose list holds it |
| `AsCountry.ParseMeaning` | src/as2country.mjs:10-18 | every listed AS is a key, there are no other keys, and each value is a country whose list contains the AS, the last such in key order |
| `JsText.ReadInt32BE` | src/lookup.js:15 | the signed read of four bytes is the unsigned value, less 2^32 exactly when the first byte is 128 or more |
| `JsText.JsRem` | src/lookup.js:19 | JavaScript `%` by a positive number: Euclidean on non-negative operands, in (-b, 0] on negative ones |
| `JsText.Split` | src/lookup.js:11 | `split` always yields at least one part |
| `JsText.Substr` | src/historicBGPData.js:29 | `substr(start, len)` is the slice of len characters at start when it fits, empty for len at most 0, and the tail from start when it runs past the end |
| `JsText.SplitJoin` | src/lookup.js:11 | splitting a join of parts that hold no separator gives back the parts |
| `JsText.IndexOf` | src/historicBGPData.js:16-17 | `indexOf` returns the first occurrence at or after the clamped start, or -1 when there is none |
| `JsText.DecimalRoundTrip` | src/historicBGPData.js:33 | reading back the decimal text of a number gives the number |
| `RibParse.DigitRun` | src/historicBGPData.js:12 | the longest run of digits at the end of a text, preceded by a non-digit or by nothing |
| `RibParse.AsnOfSound` | src/historicBGPData.js:12 | a match of `/(\d+) [ie]$/` ends in digits, a space and 'i' or 'e', with no digit before the digits; the AS is their value |
| `RibParse.AsnOfShape` | src/historicBGPData.js:12 | every text of that shape matches, with its digits' value |
| `RibParse.HeaderMeaning` | src/historicBGPData.js:37-46 | a header updates the offsets only when "Network" and "Path" both occur at an index above 0, and then to their first occurrences |
| `RibParse.LineWithoutEnd` | src/historicBGPData.js:16-22 | a line with no space after the slash that follows the Network column changes nothing |
| `RibParse.LineAlreadySeen` | src/historicBGPData.js:23-26 | a network text already seen changes nothing, so the first line for a network wins |
| `RibParse.LineMarksSeen` | src/historicBGPData.js:23-29 | a new network text is marked seen even if no AS follows, a short address throws a RangeError, and at most one key is written |
| `RibParse.LineRecords` | src/historicBGPData.js:29-34 | a recorded entry's key is the numeric address followed by the "/cidr" text, and its value is the integer before the trailing " i" or " e" |
| `RibParse.RibParser.ParseRibHeader` | src/historicBGPData.js:37-46 | the offsets array becomes what the header dictates |
| `RibParse.RibParser.ParseRibLine` | src/historicBGPData.js:14-35 | `seen` and `map` change as the line's step dictates, and the offsets stay |
| `RibParse.RibParser.ParseAsLine` | src/historicBGPData.js:48-55 | while `offsets[0]` is 0 a line is a header, afterwards a route line |

## Left out

- `PrefixMath.JsFlipBit`: its own contract states only the signed 32-bit range. What bit it flips is the lemma `PrefixMath.JsFlipBitFlips`, kept apart because the function appears in many proofs that do not need it.
- `FlatMap.Sibling`: its own contract states only the prefix length and the signed range. Which key it is, on either half of the address space, is stated by `FlatMap.SiblingLowerHalf` and `FlatMap.SiblingUpperNegative`.
- Network, process and file I/O and the async orchestration are not modelled. This covers `createAS2CountryMap`, `loadIP2ASMap`, `parseIP2ASMap`, `getMap`, `getGenericMap`, `buildOutput`, `main`, `getAS2CountryCache`, `cleanup`, src/cache.js, src/currentBGPData.js and src/as2country.js. They download, cache and stream data the core only receives as in-memory maps.
- The regex scrapers `parseAS2CountryMap` of src/build.js and src/as2country.js, and `parseASLine` of src/build.js and src/currentBGPData.js, are not modelled. They are backtracking regex matches over scraped web text.
- src/bunzipstream.js is not part of this model. It is a coroutine around a foreign decompressor.
- Logging, the `traceIP` machinery, `toString` and the floating-point "percent geolocated" figure are not modelled. They only produce console output.
- Converting a dotted-quad part to a byte (`new Buffer(parts)`) is the parameter `toOctet`. Its only assumed property is that it yields a byte.
- `TreeNodes.Contains`, `TreeSearch.FindKey`, `TreeSearch.SlowFindKey` and `TreeSearch.TreeToTable` also stand for the identical `contains`, `findKey`, `fk` and `treeToTable` of src/util.js (src/util.js:30-35, 100-131, 210-226).
- `UtilTree.UtilTableToTree`: inserts with the corrected insert (see Findings), not the binary-search insert of src/util.js:70-98. The as-written insert is `UtilTree.UtilInsertInTree`.
- `Transform.UtilTreeTransform`: builds its tree with the corrected insert, so its well-formedness promise is about the corrected build. `Transform.UtilTreeTransformAsWritten` follows src/util.js:70-98 as written and promises everything except well-formedness, which that insert can break (`UtilTree.UtilInsertMisplaces`).
- `TreeSpan.CreateSpan`: the greedy-fill promise is proved only when `from` is aligned with prefix length 2..32 and the gap is shorter than a /2 block. Outside that range the signed shifts make the walk reach `prefix(·, -1)` or stop advancing, and the model returns `Err(OutsideModel)` there.
- `TreeMerge.SafeMerge`: success and well-formedness are promised only while every span tried is a tree block strictly inside its node (the ghost flag `inside`, defined by the recorded attempts). A span that falls back to /1 or /0 under the root can break the order, and the model does not characterise the tree it then builds. After a merge the walk steps back and revisits pairs, so only a walk that merges nothing is promised to have declined every equal-valued pair.
- `UtilTree.UtilSafeMerge`: after a merge the walk goes on from the merged node and never revisits the pair before it, so only a walk that merges nothing is promised to have declined every candidate pair.
- `FlatMap.Reduce`: proved to succeed on every table of valid keys, and, when it succeeds, to reach a stable table and to keep only input values. That longest-prefix match over the reduced table equals match over the input is not proved, because overlapping keys in later passes may write over each other.
- `Lookup.LookupIp`: uses the unsigned read of the dotted quad, the corrected `getClassC` (see Findings). The signed read of src/lookup.js:15 is `Lookup.ClassCAsWritten`.
- Exceptions are `Err` results. The `TypeError` of reading a field of `undefined`, the `RangeError` of a short Buffer and "Malformed tree" are distinguished. Their messages are not modelled.

## Findings

| source | as written | input that shows it | evidently intended | confidence | as-written member | corrected member |
|---|---|---|---|---|---|---|
| src/tree.js:149-162 | `findKey` descends only into a child that strictly contains the key, so it never returns a node below the root | the tree for {10.0.0.0/8: "US"} and the key 10.0.0.0/8 | descend also into the child whose block is the key, and find every key present | high (proved), not executed | `TreeSearch.FindKeyMissesChild` | `TreeSearch.FindKeyFixedFinds` |
| src/util.js:72-96 | the binary search can stop one child short, and the node is spliced in before a child it follows | children 10.0, 10.1, 10.2, 10.3, 10.4, 10.6 (/16), inserting 10.5.0.0/16 | splice the node after exactly the children that precede it, keeping siblings in address order | high (proved), not executed | `UtilTree.UtilInsertMisplaces` | `UtilTree.FixedInsertedWF` |
| src/lookup.js:15-19 | the dotted quad is read as a signed int32 and aligned with a truncating `%`, so addresses from 128.0.0.0 get a negative base one block too high | "128.208.4.1" gives 128.208.5.0 - 2^32 | read the address unsigned, so the base is its /24 prefix | high (proved), not executed | `Lookup.ClassCSignedMisplaces` | `Lookup.ClassCIsPrefix` |
