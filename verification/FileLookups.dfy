/** Looking an offset up in an extent index of any height: the search of the tree, not that of a single leaf. */
module FileLookups {
  import opened BmTreeModel
  import opened BmTreeLeaves
  import opened BmTreeLocate
  import opened BmTreeSearch
  import opened BmTreeCounts
  import opened BmTreeSteps
  import opened FileExtents
  import E = BmTreeExamples
  import O = BmTreeOrder
  import R = BmTreeRuns
  import T = BmTreeContainer
  import Two = BmTreeTwoLeaves
  import Up = BmTreeAscending
  import V = Volumes
  import X = Multiples

  /** The tree holds one entry for each extent of the index, under its last byte. */
  ghost predicate Indexes(t: Tree, index: seq<DataExtent>) {
    && t.levels != [] && |Row(t, 0)| == |index|
    && forall i :: 0 <= i < |index| ==> Row(t, 0)[i].key == LocalLast(index[i])
  }

  /** Looking `o` up in the tree answers with extent number `i`. */
  ghost predicate Answers(t: Tree, index: seq<DataExtent>, o: nat, i: nat) {
    && t.levels != [] && i < |index| && Target(t, o) < |t.levels[0]|
    && var r := FoundFrom(t, Target(t, o), o, 1, false);
       r.0 == OK && |r.1| == 1 && r.1[0].key == LocalLast(index[i])
  }

  ghost predicate IsLastByte(index: seq<DataExtent>, o: nat) {
    exists i :: 0 <= i < |index| && LocalLast(index[i]) == o
  }

  lemma SameLast(index: seq<DataExtent>, i: nat, j: nat)
    requires Chain(index) && i < |index| && j < |index| && LocalLast(index[i]) == LocalLast(index[j])
    ensures i == j
  {
    hide LocalLast;
    StraightLast(index[i]);
    StraightLast(index[j]);
  }

  /** The extent that an entry of the tree stands for. */
  lemma NumberOf(t: Tree, index: seq<DataExtent>, e: Entry) returns (i: nat)
    requires Indexes(t, index) && e in Row(t, 0)
    ensures i < |index| && LocalLast(index[i]) == e.key
  {
    hide LocalLast;
    i :| i < |index| && Row(t, 0)[i] == e;
  }

  lemma StoredIsLast(t: Tree, index: seq<DataExtent>, o: nat)
    requires Indexes(t, index)
    ensures Stored(t, o) <==> IsLastByte(index, o)
  {
    hide LocalLast, Matching, Flat;
    if i: nat :| i < |index| && LocalLast(index[i]) == o {
      MatchingAll([Row(t, 0)[i]], o);
      MatchingHas(Row(t, 0), o, i);
    } else {
      MatchingNone(Row(t, 0), o);
    }
  }

  lemma MatchingHas(es: seq<Entry>, key: int, i: nat)
    requires i < |es| && es[i].key == key
    ensures Matching(es, key) != []
  {
    hide Matching;
    assert es == (es[..i] + [es[i]]) + es[i + 1..];
    MatchingConcat(es[..i] + [es[i]], es[i + 1..], key);
    MatchingConcat(es[..i], [es[i]], key);
    MatchingAll([es[i]], key);
  }

  /** The extent with the least last byte not below the offset is the one a leaf names for it. */
  lemma CeilingIsSlot(t: Tree, index: seq<DataExtent>, o: nat, e: Entry, i: nat)
    requires Chain(index) && Indexes(t, index) && o < End(index) && i < |index| && LocalLast(index[i]) == e.key
    ensures IsCeiling(t, e, o) <==> i == Slot(index, o)
    ensures e.key < o ==> Last(index[i]) < o
  {
    hide LocalLast, Slot, Flat, Last;
    StraightLast(index[i]);
    SlotContains(index, o);
    var s := Slot(index, o);
    StraightLast(index[s]);
    if i == s {
      forall x | x in Row(t, 0) && o <= x.key ensures e.key <= x.key {
        var j := NumberOf(t, index, x);
        StraightLast(index[j]);
        if j > s { assert Last(index[s]) < Last(index[j]); }
      }
    } else if i > s {
      assert Row(t, 0)[s] in Row(t, 0) && Row(t, 0)[s].key == Last(index[s]) < Last(index[i]);
    } else {
      assert Last(index[i]) < o;
    }
  }

  lemma OneAnswer(t: Tree, index: seq<DataExtent>, o: nat, i: nat, j: nat)
    requires Chain(index) && Answers(t, index, o, i) && Answers(t, index, o, j)
    ensures i == j
  {
    hide LocalLast, FoundFrom;
    SameLast(index, i, j);
  }

  /**
   An offset below the end of the file is answered with the extent that holds it exactly when the leaf reached is not
   all below the offset, and is the first leaf or has the last byte of an extent asked of it. Any other answer is an
   extent that ends before the offset.
   */
  lemma LookUpExact(c: Caps, t: Tree, index: seq<DataExtent>, o: nat)
    requires Ready(c, t, 0) && O.Ordered(t) && Chain(index) && Indexes(t, index) && o < End(index)
    ensures Target(t, o) < |t.levels[0]| && Slot(index, o) < |index| && ContainsLocal(index[Slot(index, o)], o)
    ensures var p := Target(t, o);
            Answers(t, index, o, Slot(index, o)) <==> !AllBelow(t, p, o) && (p == 0 || IsLastByte(index, o))
    ensures forall i: nat :: Answers(t, index, o, i) && i != Slot(index, o) ==> Last(index[i]) < o
  {
    hide LevelOk, Blocks, BlocksOk, O.Ordered, Flat, AllBelow, FoundBack, IsCeiling, Stored, LocalLast, IsLastByte;
    hide Last, Slot, Chain, Target, LeafIndex, ContainsLocal;
    LooseSearchExact(c, t, o);
    SlotHolds(index, o);
    var p := Target(t, o);
    var r := FoundFrom(t, p, o, 1, false);
    if r.0 != NotFound {
      FoundWhole(c, t, p, o, 1, false);
      assert r.1[0] in multiset(r.1);
      var i := NumberOf(t, index, r.1[0]);
      assert Answers(t, index, o, i);
      StoredIsLast(t, index, o);
      CeilingIsSlot(t, index, o, r.1[0], i);
      forall j: nat | Answers(t, index, o, j) ensures j == i {
        OneAnswer(t, index, o, i, j);
      }
    }
  }

  lemma SlotHolds(index: seq<DataExtent>, o: nat)
    requires Chain(index) && o < End(index)
    ensures Slot(index, o) < |index| && ContainsLocal(index[Slot(index, o)], o)
  {
    hide Slot, LocalLast;
    SlotContains(index, o);
    StraightLast(index[Slot(index, o)]);
  }

  /** An index of one leaf answers every offset below the end of the file with the extent that holds it. */
  lemma LookUpInOneLeaf(c: Caps, t: Tree, index: seq<DataExtent>, o: nat)
    requires Ready(c, t, 0) && |t.levels| == 1 && Chain(index) && Indexes(t, index) && o < End(index)
    ensures Answers(t, index, o, Slot(index, o))
  {
    hide LevelOk, Blocks, BlocksOk, Flat, FoundFrom, LocalLast, Last, Slot, Answers, IsLastByte;
    RowSorted(t, index);
    R.OneLeafMap(c, t, o, 1);
    LookUpExact(c, t, index, o);
    var n := |index| - 1;
    StraightLast(index[n]);
    assert LeafEnts(t, 0)[n].key == Last(index[n]);
  }

  lemma RowSorted(t: Tree, index: seq<DataExtent>)
    requires Chain(index) && Indexes(t, index)
    ensures O.Sorted(Row(t, 0))
  {
    hide LocalLast, Last, Flat;
    KeysSorted(index);
    forall i, j | 0 <= i < j < |index| ensures Row(t, 0)[i].key <= Row(t, 0)[j].key {
      assert Keys(index)[i].key <= Keys(index)[j].key;
    }
  }

  // ---- Files that were written one cluster after the other ----

  /**
   The extents of a file to which clusters were appended: the first block became a whole cluster, and each later extent
   starts a cluster early.
   */
  ghost predicate Appended(index: seq<DataExtent>, clusterSize: nat) {
    && index != [] && index[0].localStart == 0 && index[0].length == clusterSize
    && forall i :: 1 <= i < |index| ==>
         index[i].localStart == (i - 1) * clusterSize && index[i].length == 2 * clusterSize
  }

  /** The extent that a write of up to a cluster gets at the end of `i` clusters is the next one of these. */
  lemma AppendedByWrite(i: nat, count: nat, clusterSize: nat, max: nat)
    requires 0 < i && 0 < count <= clusterSize && 2 <= clusterSize && (i + 5) * clusterSize <= V.WORD
    requires 2 * clusterSize <= max
    ensures NewStart(i * clusterSize, clusterSize) == (i - 1) * clusterSize
    ensures NewLength(i * clusterSize, count, clusterSize, max) == 2 * clusterSize
  {
    hide PreviousMultipleOf, NextMultipleOf;
    var o := i * clusterSize;
    Places(i, clusterSize);
    X.IsMultiple(i, clusterSize);
    OneClusterEarly(o, count, clusterSize);
    X.Itself(clusterSize);
    X.Sum(o, clusterSize, clusterSize);
    X.MultipleUnique(NextMultipleOf(o + count, clusterSize), o + clusterSize, clusterSize);
  }

  lemma Places(i: nat, size: nat)
    requires 0 < i
    ensures i * size == (i - 1) * size + size >= size && (i + 5) * size == i * size + 5 * size
  {}

  lemma AppendedLast(index: seq<DataExtent>, clusterSize: nat, i: nat)
    requires Appended(index, clusterSize) && i < |index| && 0 < clusterSize && (|index| + 1) * clusterSize <= V.WORD
    ensures Straight(index[i]) && Last(index[i]) == LocalLast(index[i]) == (i + 1) * clusterSize - 1
  {
    X.OneMore(i, clusterSize);
    if i > 0 { X.OneMore(i - 1, clusterSize); }
    Below(i + 1, |index|, clusterSize);
    X.OneMore(|index|, clusterSize);
    StraightLast(index[i]);
  }

  lemma Below(a: nat, b: nat, size: nat)
    requires a <= b
    ensures a * size <= b * size
  {
    assert b * size == a * size + (b - a) * size;
  }

  lemma AppendedChain(index: seq<DataExtent>, clusterSize: nat)
    requires Appended(index, clusterSize) && 0 < clusterSize && (|index| + 1) * clusterSize <= V.WORD
    ensures Chain(index)
  {
    hide Straight, Last, LocalLast;
    forall i | 0 <= i < |index| ensures Straight(index[i]) {
      AppendedLast(index, clusterSize, i);
    }
    forall i, j | 0 <= i < j < |index| ensures Last(index[i]) < Last(index[j]) {
      AppendedLast(index, clusterSize, i);
      AppendedLast(index, clusterSize, j);
      Below(i + 2, j + 1, clusterSize);
      X.OneMore(i + 1, clusterSize);
    }
    forall i, j | 0 <= i && j == i + 1 && j < |index| ensures index[j].localStart <= Last(index[i]) + 1 {
      AppendedLast(index, clusterSize, i);
      X.OneMore(i, clusterSize);
    }
  }

  /** All bytes of cluster number `n` lie in extent number `n` and, but for none, not in the one before. */
  lemma AppendedHolds(index: seq<DataExtent>, clusterSize: nat, n: nat, d: nat)
    requires Appended(index, clusterSize) && 0 < n < |index| && d < clusterSize && (|index| + 1) * clusterSize <= V.WORD
    ensures ContainsLocal(index[n], n * clusterSize + d) && !ContainsLocal(index[n - 1], n * clusterSize + d)
  {
    hide Last, LocalLast;
    AppendedLast(index, clusterSize, n);
    AppendedLast(index, clusterSize, n - 1);
    X.OneMore(n, clusterSize);
    X.OneMore(n - 1, clusterSize);
    StraightLast(index[n]);
    StraightLast(index[n - 1]);
  }

  /** Two leaves of which the first has the extents before number `n`. */
  ghost predicate Parted(t: Tree, index: seq<DataExtent>, n: nat) {
    && Two.TwoLeaves(t) && 0 < n && n + 2 <= |index|
    && LeafEnts(t, 0) == Keys(index)[..n] && LeafEnts(t, 1) == Keys(index)[n..]
    && O.Sep(t, 0, 0) == Keys(index)[n - 1].key
  }

  lemma PartedAnswers(c: Caps, t: Tree, index: seq<DataExtent>, n: nat, o: nat)
    requires Ready(c, t, 0) && Parted(t, index, n) && Chain(index) && Last(index[n - 1]) < o < Last(index[n])
    ensures Indexes(t, index) && Answers(t, index, o, n - 1)
    ensures Target(t, o) == 1 && FoundFrom(t, 1, o, 1, false) == (OK, [Entry(LocalLast(index[n - 1]), n - 1)])
  {
    hide LevelOk, Blocks, BlocksOk, Flat, Target, FoundFrom, LeafIndex, Last, LocalLast, Straight;
    Two.TwoLeafTarget(c, t, o);
    Two.TwoLeafRow(t);
    KeysSorted(index);
    assert Keys(index)[..n] + Keys(index)[n..] == Keys(index);
    assert LeafEnts(t, 1)[0] == Keys(index)[n] && LeafEnts(t, 1)[1] == Keys(index)[n + 1];
    assert Last(index[n]) < Last(index[n + 1]);
    E.StartsAbove(LeafEnts(t, 1), o);
    E.LooseGoesBack(t, o);
  }

  /** Behind the first leaf nothing but the last byte of an extent is looked up right. */
  lemma PartedMisses(c: Caps, t: Tree, index: seq<DataExtent>, n: nat, o: nat)
    requires Ready(c, t, 0) && O.Ordered(t) && Parted(t, index, n) && Chain(index) && Indexes(t, index)
    requires Last(index[n - 1]) < o < End(index)
    ensures Answers(t, index, o, Slot(index, o)) ==> IsLastByte(index, o)
  {
    hide LevelOk, Blocks, BlocksOk, Flat, Target, FoundFrom, Last, LocalLast, Chain, Answers, Slot, O.Ordered;
    KeysSorted(index);
    Two.TwoLeafTarget(c, t, o);
    LookUpExact(c, t, index, o);
  }

  lemma AllMissed(c: Caps, t: Tree, index: seq<DataExtent>, n: nat, from: nat)
    requires Ready(c, t, 0) && O.Ordered(t) && Parted(t, index, n) && Chain(index) && Indexes(t, index)
    requires Last(index[n - 1]) < from
    ensures forall o: nat :: from <= o < End(index) && !IsLastByte(index, o) ==> !Answers(t, index, o, Slot(index, o))
  {
    hide Ready, O.Ordered, Parted, Straight, Last, Indexes, Answers, Slot, IsLastByte;
    forall o: nat | from <= o < End(index) && !IsLastByte(index, o) ensures !Answers(t, index, o, Slot(index, o)) {
      PartedMisses(c, t, index, n, o);
    }
  }

  lemma KeysPart(c: Caps, t: Tree, t': Tree, index: seq<DataExtent>)
    requires |index| == c.leaf + 1 && PutIn(c, t, t', Keys(index)[c.leaf]) && |t.levels| == 1 && Chain(index)
    requires Row(t, 0) == Keys(index)[..c.leaf]
    ensures Parted(t', index, c.leaf / 2)
  {
    hide LevelOk, Blocks, BlocksOk, Flat, PutIn, LocalLast, Last, LeafIndex, LeftPart, RightPart, Keys, Straight;
    var es, e, n := Row(t, 0), Keys(index)[c.leaf], c.leaf / 2;
    KeysAscend(index, c.leaf);
    FirstSplit(c, t, t', e);
    E.EndsBelow(es, e.key);
    PartsAtEnd(es, n, e);
    KeysSplit(index, c.leaf, n);
  }

  lemma PartsAtEnd(es: seq<Entry>, n: nat, e: Entry)
    requires n < |es|
    ensures LeftPart(es, n, |es|, e) == es[..n] && RightPart(es, n, |es|, e) == es[n..] + [e]
  {}

  lemma KeysSplit(index: seq<DataExtent>, cap: nat, n: nat)
    requires |index| == cap + 1 && n <= cap
    ensures Keys(index)[..cap][..n] == Keys(index)[..n]
    ensures Keys(index)[..cap][n..] + [Keys(index)[cap]] == Keys(index)[n..]
  {}

  lemma KeysAscend(index: seq<DataExtent>, n: nat)
    requires Chain(index) && n <= |index|
    ensures R.Ascending([] + Keys(index)[..n])
    ensures forall e :: n < |index| && e in Keys(index)[..n] ==> e.key < Keys(index)[n].key
  {
    hide LocalLast, Last;
    KeysSorted(index);
    forall i, j | 0 <= i < j < |index| ensures Keys(index)[i].key < Keys(index)[j].key {
      assert Last(index[i]) < Last(index[j]);
    }
  }

  /** Such an index, filed extent by extent, when it has just become more than one leaf. */
  method FileIndex(c: Caps, index: seq<DataExtent>) returns (tree: T.BmTree)
    requires CapsOk(c) && |index| == c.leaf + 1 && Chain(index)
    ensures tree.Valid() && O.Ordered(tree.Now()) && tree.caps == c && Parted(tree.Now(), index, c.leaf / 2)
  {
    hide LevelOk, Blocks, BlocksOk, Flat, O.Ordered, PutIn, R.Ascending, Parted, LocalLast, Last, O.Misplaces, Taken;
    hide Straight, Keys;
    KeysAscend(index, c.leaf);
    tree := new T.BmTree(c, [1, 2, 3]);
    ThreeBlocks(tree.pool);
    var st := tree.Init();
    Two.OneLeafRow(c, tree.Now());
    Two.PoolOfOne(tree.Now());
    var ok;
    ghost var done, trail;
    ok, done, trail := R.InsertAscending(tree, Keys(index)[..c.leaf]);
    ghost var t := tree.Now();
    assert [] + Keys(index)[..c.leaf] == Keys(index)[..c.leaf];
    Up.TopKeyFits(c, t, Keys(index)[c.leaf].key);
    Two.FullLeafTakes(c, t, Keys(index)[c.leaf].key);
    R.PutEntry(tree, Keys(index)[c.leaf]);
    KeysPart(c, t, tree.Now(), index);
  }

  /**
   As soon as such an index is more than one leaf, every byte of the cluster at which the leaves part, but its last one,
   is looked up in the extent that ends before it, and from there on nothing but the last bytes of extents is looked up
   right: for every cluster size and capacity of a leaf.
   */
  method LookUpMisses(c: Caps, index: seq<DataExtent>, clusterSize: nat, d: nat)
    returns (tree: T.BmTree, st: Status, value: int)
    requires CapsOk(c) && Appended(index, clusterSize) && |index| == c.leaf + 1
    requires d + 1 < clusterSize && (|index| + 1) * clusterSize <= V.WORD
    ensures tree.Valid() && O.Ordered(tree.Now()) && tree.caps == c && Indexes(tree.Now(), index) && Chain(index)
    ensures var n, o := c.leaf / 2, c.leaf / 2 * clusterSize + d;
      && 0 < n < |index| && ContainsLocal(index[n], o) && !ContainsLocal(index[n - 1], o)
      && st == OK && value == n - 1 && Answers(tree.Now(), index, o, n - 1)
    ensures forall o: nat :: c.leaf / 2 * clusterSize <= o < End(index) && !IsLastByte(index, o) ==>
              !Answers(tree.Now(), index, o, Slot(index, o))
  {
    hide LevelOk, Blocks, BlocksOk, Flat, Target, FoundFrom, ContainsLocal, Indexes, Answers, O.Ordered, Keys;
    hide Parted, Appended, LocalLast, Last, IsLastByte, Slot, Straight;
    var n, o := c.leaf / 2, c.leaf / 2 * clusterSize + d;
    AppendedChain(index, clusterSize);
    AppendedHolds(index, clusterSize, n, d);
    AppendedLast(index, clusterSize, n);
    AppendedLast(index, clusterSize, n - 1);
    X.OneMore(n, clusterSize);
    tree := FileIndex(c, index);
    PartedAnswers(c, tree.Now(), index, n, o);
    AllMissed(c, tree.Now(), index, n, n * clusterSize);
    ghost var found;
    st, value, found := tree.Search(o, false);
  }

  lemma ThreeBlocks(pool: seq<Address>)
    requires pool == [1, 2, 3]
    ensures |Blocks(pool, [])| == 3 && BlocksOk(Blocks(pool, []))
  {}

  /** Clusters of 4096 bytes, which take 127 extents in a leaf: a file of 128 clusters. */
  method LookUpMissesByDefault(index: seq<DataExtent>, d: nat) returns (tree: T.BmTree, st: Status, value: int)
    requires Appended(index, 4096) && |index| == 128 && d < 4095
    ensures tree.Valid() && O.Ordered(tree.Now()) && Indexes(tree.Now(), index) && Chain(index)
    ensures ContainsLocal(index[63], 63 * 4096 + d) && !ContainsLocal(index[62], 63 * 4096 + d)
    ensures st == OK && Answers(tree.Now(), index, 63 * 4096 + d, 62)
  {
    hide Appended, Chain, ContainsLocal, Indexes, Answers, O.Ordered;
    tree, st, value := LookUpMisses(Caps(127, 255), index, 4096, d);
  }
}
