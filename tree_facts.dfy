/** Lemmas about sizes, labels and block containment of well-formed trees. */
module TreeFacts {
  import opened Wrappers
  import opened Arith
  import opened PrefixMath
  import opened TreeNodes
  import opened Seqs

  /** No block is shared between the labels of A and those of B. */
  ghost predicate BlocksDisjoint(a: set<Entry>, b: set<Entry>) {
    forall x, y :: x in a && y in b ==> EntryBlock(x) != EntryBlock(y)
  }

  /** The labels of `es` whose block is not `k`. */
  ghost function Without(es: set<Entry>, k: Key): set<Entry> {
    set e | e in es && EntryBlock(e) != k
  }

  /** Taking out a block none of the labels has leaves them all. */
  lemma WithoutNone(es: set<Entry>, k: Key)
    requires forall e :: e in es ==> EntryBlock(e) != k
    ensures Without(es, k) == es
  {
  }

  /** Taking out a block that only the middle part can have. */
  lemma WithoutAround(pre: set<Entry>, mid: set<Entry>, post: set<Entry>, k: Key)
    requires forall e :: e in pre ==> EntryBlock(e) != k
    requires forall e :: e in post ==> EntryBlock(e) != k
    ensures Without(pre + mid + post, k) == pre + Without(mid, k) + post
  {
  }

  /** Taking out a block from the labels of a node whose own block differs. */
  lemma WithoutSelf(n: Node, k: Key)
    requires n.Block() != k
    ensures Without(EntriesSelf(n), k) == {Label(n)} + Without(Entries(n), k)
  {
    assert EntryBlock(Label(n)) == n.Block();
  }

  /** Taking out a node's own block leaves its descendants' labels when none of them has it. */
  lemma WithoutOwn(n: Node)
    requires forall e :: e in Entries(n) ==> EntryBlock(e) != n.Block()
    ensures Without(EntriesSelf(n), n.Block()) == Entries(n)
  {
    assert EntryBlock(Label(n)) == n.Block();
  }

  /** Header fields agree: only the children may differ. */
  predicate SameHeader(a: Node, b: Node) {
    a.ip == b.ip && a.cidr == b.cidr && a.key == b.key && a.value == b.value
  }

  lemma {:induction false} SizeSeqAppend(a: seq<Node>, b: seq<Node>)
    ensures SizeSeq(a + b) == SizeSeq(a) + SizeSeq(b)
  {
    if a == [] {
      assert a + b == b;
    } else {
      assert (a + b)[1..] == a[1..] + b;
      SizeSeqAppend(a[1..], b);
    }
  }

  lemma {:induction false} EntriesSeqAppend(a: seq<Node>, b: seq<Node>)
    ensures EntriesSeq(a + b) == EntriesSeq(a) + EntriesSeq(b)
  {
    if a == [] {
      assert a + b == b;
    } else {
      assert (a + b)[1..] == a[1..] + b;
      EntriesSeqAppend(a[1..], b);
    }
  }

  lemma Singleton(x: Node)
    ensures SizeSeq([x]) == Size(x)
    ensures EntriesSeq([x]) == EntriesSelf(x)
  {
    assert [x][1..] == [];
  }

  /** The sequence measures split around position k. */
  lemma SplitAt(cs: seq<Node>, k: nat)
    requires k < |cs|
    ensures SizeSeq(cs) == SizeSeq(cs[..k]) + Size(cs[k]) + SizeSeq(cs[k + 1..])
    ensures EntriesSeq(cs) == EntriesSeq(cs[..k]) + EntriesSelf(cs[k]) + EntriesSeq(cs[k + 1..])
  {
    Around(cs, k);
    SizeSeqAppend(cs[..k] + [cs[k]], cs[k + 1..]);
    SizeSeqAppend(cs[..k], [cs[k]]);
    EntriesSeqAppend(cs[..k] + [cs[k]], cs[k + 1..]);
    EntriesSeqAppend(cs[..k], [cs[k]]);
    Singleton(cs[k]);
  }

  /** The measures of a splice `cs[..pos] + [x] + cs[pos + len..]`. */
  lemma SplicedMeasures(cs: seq<Node>, pos: nat, len: nat, x: Node)
    requires pos + len <= |cs|
    ensures SizeSeq(cs) == SizeSeq(cs[..pos]) + SizeSeq(cs[pos..pos + len]) + SizeSeq(cs[pos + len..])
    ensures EntriesSeq(cs) == EntriesSeq(cs[..pos]) + EntriesSeq(cs[pos..pos + len]) + EntriesSeq(cs[pos + len..])
    ensures SizeSeq(cs[..pos] + [x] + cs[pos + len..]) == SizeSeq(cs[..pos]) + Size(x) + SizeSeq(cs[pos + len..])
    ensures EntriesSeq(cs[..pos] + [x] + cs[pos + len..]) ==
            EntriesSeq(cs[..pos]) + EntriesSelf(x) + EntriesSeq(cs[pos + len..])
  {
    Three(cs, pos, pos + len);
    SizeSeqAppend(cs[..pos] + cs[pos..pos + len], cs[pos + len..]);
    SizeSeqAppend(cs[..pos], cs[pos..pos + len]);
    EntriesSeqAppend(cs[..pos] + cs[pos..pos + len], cs[pos + len..]);
    EntriesSeqAppend(cs[..pos], cs[pos..pos + len]);
    SizeSeqAppend(cs[..pos] + [x], cs[pos + len..]);
    SizeSeqAppend(cs[..pos], [x]);
    EntriesSeqAppend(cs[..pos] + [x], cs[pos + len..]);
    EntriesSeqAppend(cs[..pos], [x]);
    Singleton(x);
  }

  /** A child is smaller than its parent. */
  lemma ChildSmaller(n: Node, k: nat)
    requires k < |n.children|
    ensures Size(n.children[k]) < Size(n)
    ensures SizeSeq(n.children[k].children) + 1 < Size(n)
  {
    SplitAt(n.children, k);
  }

  /** A slice weighs no more than the whole sequence. */
  lemma SliceSmaller(cs: seq<Node>, pos: nat, len: nat)
    requires pos + len <= |cs|
    ensures SizeSeq(cs[pos..pos + len]) <= SizeSeq(cs)
    ensures EntriesSeq(cs[pos..pos + len]) <= EntriesSeq(cs)
  {
    SplicedMeasures(cs, pos, len, EmptyRoot());
  }

  /** Prefix sums of sizes. */
  lemma PrefixStep(cs: seq<Node>, i: nat)
    requires i < |cs|
    ensures SizeSeq(cs[..i + 1]) == SizeSeq(cs[..i]) + Size(cs[i])
    ensures EntriesSeq(cs[..i + 1]) == EntriesSeq(cs[..i]) + EntriesSelf(cs[i])
    ensures SizeSeq(cs[..i + 1]) <= SizeSeq(cs)
  {
    Snoc(cs, i);
    SizeSeqAppend(cs[..i], [cs[i]]);
    EntriesSeqAppend(cs[..i], [cs[i]]);
    Singleton(cs[i]);
    Two(cs, i + 1);
    SizeSeqAppend(cs[..i + 1], cs[i + 1..]);
  }

  /** A label of a sequence comes from one of its members. */
  lemma {:induction false} EntriesSeqMember(cs: seq<Node>, e: Entry) returns (i: nat)
    requires e in EntriesSeq(cs)
    ensures i < |cs| && e in EntriesSelf(cs[i])
  {
    if e in EntriesSelf(cs[0]) {
      i := 0;
    } else {
      var j := EntriesSeqMember(cs[1..], e);
      i := j + 1;
    }
  }

  /** A label of a slice comes from a member of that slice. */
  lemma SliceMember(cs: seq<Node>, from: nat, to: nat, e: Entry) returns (j: nat)
    requires from <= to <= |cs| && e in EntriesSeq(cs[from..to])
    ensures from <= j < to && e in EntriesSelf(cs[j])
  {
    var i := EntriesSeqMember(cs[from..to], e);
    assert cs[from..to][i] == cs[from + i];
    j := from + i;
  }

  /** A label of a suffix comes from a member of that suffix. */
  lemma SuffixMember(cs: seq<Node>, from: nat, e: Entry) returns (j: nat)
    requires from <= |cs| && e in EntriesSeq(cs[from..])
    ensures from <= j < |cs| && e in EntriesSelf(cs[j])
  {
    var i := EntriesSeqMember(cs[from..], e);
    assert cs[from..][i] == cs[from + i];
    j := from + i;
  }

  /** The labels strictly below the members of a sibling list (their descendants). */
  ghost function BelowSeq(cs: seq<Node>): set<Entry>
    decreases cs
  {
    if cs == [] then {} else Entries(cs[0]) + BelowSeq(cs[1..])
  }

  lemma {:induction false} BelowSeqAppend(a: seq<Node>, b: seq<Node>)
    ensures BelowSeq(a + b) == BelowSeq(a) + BelowSeq(b)
  {
    if a == [] {
      assert a + b == b;
    } else {
      assert (a + b)[1..] == a[1..] + b;
      BelowSeqAppend(a[1..], b);
    }
  }

  /** A label strictly below a sibling list lies strictly below one of its members. */
  lemma {:induction false} BelowSeqMember(cs: seq<Node>, e: Entry) returns (i: nat)
    requires e in BelowSeq(cs)
    ensures i < |cs| && e in Entries(cs[i])
  {
    if e in Entries(cs[0]) {
      i := 0;
    } else {
      var j := BelowSeqMember(cs[1..], e);
      i := j + 1;
    }
  }

  /** Every member's labels are among the sequence's labels. */
  lemma {:induction false} EntriesSeqHas(cs: seq<Node>, i: nat)
    requires i < |cs|
    ensures EntriesSelf(cs[i]) <= EntriesSeq(cs)
  {
    SplitAt(cs, i);
  }

  /** `Inside` is transitive. */
  lemma InsideTrans(a: Key, b: Key, c: Key)
    requires Inside(a, b) && Inside(b, c)
    ensures Inside(a, c)
  {
  }

  /** The descendants of a well-formed node are tree blocks strictly inside it. */
  lemma {:induction false} EntriesInside(n: Node, e: Entry)
    requires WF(n) && e in Entries(n)
    ensures TreeBlock(EntryBlock(e)) && Inside(n.Block(), EntryBlock(e))
    decreases n
  {
    var i := EntriesSeqMember(n.children, e);
    var c := n.children[i];
    if e != Label(c) {
      assert e in Entries(c);
      EntriesInside(c, e);
      InsideTrans(n.Block(), c.Block(), EntryBlock(e));
    }
  }

  /** The labels of a node lie within its own address range. */
  lemma EntriesSelfWithin(c: Node, e: Entry)
    requires WF(c) && TreeBlock(c.Block()) && e in EntriesSelf(c)
    ensures TreeBlock(EntryBlock(e))
    ensures c.ip <= e.ip && End(EntryBlock(e)) <= End(c.Block())
    ensures e != Label(c) ==> c.cidr < e.cidr
  {
    if e != Label(c) {
      assert e in Entries(c);
      EntriesInside(c, e);
    }
  }

  /** Siblings of a well-formed list share no block. */
  lemma SiblingsDisjoint(p: Key, cs: seq<Node>, i: nat, j: nat)
    requires WFChildren(p, cs) && i < j < |cs|
    ensures BlocksDisjoint(EntriesSelf(cs[i]), EntriesSelf(cs[j]))
  {
    forall x, y | x in EntriesSelf(cs[i]) && y in EntriesSelf(cs[j])
      ensures EntryBlock(x) != EntryBlock(y)
    {
      EntriesSelfWithin(cs[i], x);
      EntriesSelfWithin(cs[j], y);
    }
  }

  /** A member shares no block with the members before it. */
  lemma {:induction false} EarlierDisjoint(p: Key, cs: seq<Node>, i: nat)
    requires WFChildren(p, cs) && i < |cs|
    ensures BlocksDisjoint(EntriesSeq(cs[..i]), EntriesSelf(cs[i]))
  {
    forall x, y | x in EntriesSeq(cs[..i]) && y in EntriesSelf(cs[i])
      ensures EntryBlock(x) != EntryBlock(y)
    {
      var j := EntriesSeqMember(cs[..i], x);
      assert cs[..i][j] == cs[j];
      SiblingsDisjoint(p, cs, j, i);
    }
  }

  /** The blocks of a sibling's subtree all start within that sibling. */
  lemma SiblingWithin(p: Key, cs: seq<Node>, i: nat, e: Entry)
    requires WFChildren(p, cs) && i < |cs| && e in EntriesSelf(cs[i])
    ensures TreeBlock(EntryBlock(e)) && cs[i].ip <= e.ip && End(EntryBlock(e)) <= End(cs[i].Block())
    ensures e != Label(cs[i]) ==> cs[i].cidr < e.cidr
  {
    EntriesSelfWithin(cs[i], e);
  }

  /** Sortedness depends only on the blocks. */
  lemma SortedReplace(cs: seq<Node>, k: nat, x: Node)
    requires Sorted(cs) && k < |cs| && x.Block() == cs[k].Block()
    ensures Sorted(cs[k := x])
  {
    var cs' := cs[k := x];
    forall i, j | 0 <= i < j < |cs'| ensures End(cs'[i].Block()) <= cs'[j].ip {
      assert cs'[i].Block() == cs[i].Block() && cs'[j].Block() == cs[j].Block();
    }
  }

  /** Splicing a block between its neighbours keeps the list sorted. */
  lemma SortedSplice(cs: seq<Node>, pos: nat, len: nat, x: Node)
    requires Sorted(cs) && pos + len <= |cs|
    requires forall i :: 0 <= i < |cs| ==> cs[i].ip < End(cs[i].Block())
    requires pos > 0 ==> End(cs[pos - 1].Block()) <= x.ip
    requires pos + len < |cs| ==> End(x.Block()) <= cs[pos + len].ip
    requires x.ip < End(x.Block())
    ensures Sorted(cs[..pos] + [x] + cs[pos + len..])
  {
    var cs' := cs[..pos] + [x] + cs[pos + len..];
    forall i, j | 0 <= i < j < |cs'| ensures End(cs'[i].Block()) <= cs'[j].ip {
      SpliceAt(cs, pos, len, x, i);
      SpliceAt(cs, pos, len, x, j);
      if j == pos && i < pos - 1 {
        assert End(cs[i].Block()) <= cs[pos - 1].ip;
      } else if i == pos && j + len - 1 > pos + len {
        assert End(cs[pos + len].Block()) <= cs[j + len - 1].ip;
      } else if i < pos < j {
        assert End(cs[i].Block()) <= cs[j + len - 1].ip;
      }
    }
  }

  /** The strict descendants of a well-formed node avoid its block. */
  lemma DescendantsAvoid(c: Node)
    requires WF(c)
    ensures forall e :: e in Entries(c) ==> EntryBlock(e) != c.Block()
  {
    forall e | e in Entries(c) ensures EntryBlock(e) != c.Block() {
      EntriesInside(c, e);
    }
  }
}
