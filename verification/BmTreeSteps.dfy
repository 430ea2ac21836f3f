/** What one insertion or removal makes of a tree: everything that the tree's methods promise, for its users. */
module BmTreeSteps {
  import opened BmTreeModel
  import opened BmTreeLocate
  import opened BmTreeCounts
  import opened BmTreeLeaves
  import opened BmTreeNodes
  import O = BmTreeOrder
  import T = BmTreeTwoLeaves

  /** The in-order position at which an insertion puts an entry with `key`. */
  ghost function PutAt(t: Tree, key: int): nat
    requires t.levels != []
  {
    LeafPosition(t, Target(t, key), LeafIndex(LeafEnts(t, Target(t, key)), key))
  }

  /** `t'` is what inserting `e` makes of `t`. */
  ghost predicate PutIn(c: Caps, t: Tree, t': Tree, e: Entry) {
    && Ready(c, t, 0) && Ready(c, t', 0) && Blocks(t'.pool, t'.levels) == Blocks(t.pool, t.levels)
    && |t'.pool| == |t.pool| - Taken(c, t, e.key)
    && Target(t, e.key) < |t.levels[0]|
    && LeafPlaced(c, t, t', Target(t, e.key), LeafIndex(LeafEnts(t, Target(t, e.key)), e.key), e)
    && GrownTo(c, t, 0, Target(t, e.key), LeafIndex(LeafEnts(t, Target(t, e.key)), e.key), e, t')
    && PutAt(t, e.key) <= |Row(t, 0)| && Row(t', 0) == InsertAt(Row(t, 0), PutAt(t, e.key), e)
  }

  /** The in-order position from which a removal that is not strict takes an entry. */
  ghost function TakenAt(t: Tree, key: int): nat
    requires t.levels != []
  {
    LeafPosition(t, Target(t, key), TakeIndex(LeafEnts(t, Target(t, key)), key, false))
  }

  /** Something is there for a removal that is not strict. */
  ghost predicate CanTake(t: Tree, key: int) {
    t.levels != [] && Holds(t, Target(t, key), key, false)
  }

  ghost function TakenEntry(t: Tree, key: int): Entry {
    if t.levels != [] && TakenAt(t, key) < |Row(t, 0)| then Row(t, 0)[TakenAt(t, key)] else Entry(0, 0)
  }

  /** `t'` is what a removal that is not strict makes of `t`. */
  ghost predicate TookOut(c: Caps, t: Tree, t': Tree, key: int) {
    && Ready(c, t, 0) && Ready(c, t', 0) && Blocks(t'.pool, t'.levels) == Blocks(t.pool, t.levels)
    && |t'.pool| == |t.pool| + Released(c, t, key)
    && CanTake(t, key) && Target(t, key) < |t.levels[0]|
    && TakenAt(t, key) < |Row(t, 0)| && Row(t', 0) == RemoveAt(Row(t, 0), TakenAt(t, key))
    && TrimmedTo(c, t, 0, Target(t, key), TakeIndex(LeafEnts(t, Target(t, key)), key, false), t')
    && (Spare(c, t, Target(t, key)) ==>
          LeafTaken(t, t', Target(t, key), TakeIndex(LeafEnts(t, Target(t, key)), key, false)))
  }

  lemma TookReady(c: Caps, t: Tree, t': Tree, key: int)
    requires TookOut(c, t, t', key)
    ensures Ready(c, t', 0)
  {}

  lemma PutReady(c: Caps, t: Tree, t': Tree, e: Entry)
    requires PutIn(c, t, t', e)
    ensures Ready(c, t, 0) && Ready(c, t', 0)
  {}

  // ---- A root leaf ----

  /** A root leaf gives up an entry without freeing a block. */
  lemma OneLeafTook(c: Caps, t: Tree, t': Tree, key: int)
    requires TookOut(c, t, t', key) && |t.levels| == 1
    ensures t'.levels == t.levels && Released(c, t, key) == 0 && |Row(t', 0)| < Cap(c, 0)
  {
    hide LeafIndex, Blocks, BlocksOk, LevelOk;
    T.FullLeafTakes(c, t, key);
    T.OneLeafRow(c, t);
    RootLeafSize(c, t);
  }

  lemma RootLeafSize(c: Caps, t: Tree)
    requires Ready(c, t, 0) && |t.levels| == 1
    ensures |Row(t, 0)| <= Cap(c, 0)
  {
    T.OneLeafRow(c, t);
    T.RootFacts(c, t);
  }

  /** A root leaf with room takes one in without a block. */
  lemma OneLeafPut(c: Caps, t: Tree, t': Tree, e: Entry)
    requires PutIn(c, t, t', e) && |t.levels| == 1 && |Row(t, 0)| < Cap(c, 0)
    ensures t'.levels == t.levels
  {
    hide LeafIndex, Blocks, BlocksOk, LevelOk;
    T.OneLeafRow(c, t);
    T.OneLeafTarget(c, t, e.key);
  }

  /** A full root leaf becomes the first of two leaves, under a root of their own. */
  lemma FirstSplit(c: Caps, t: Tree, t': Tree, e: Entry)
    requires PutIn(c, t, t', e) && |t.levels| == 1 && |Row(t, 0)| == Cap(c, 0)
    ensures var n, i := Cap(c, 0) / 2, LeafIndex(Row(t, 0), e.key);
      && T.TwoLeaves(t') && 0 < n < |Row(t, 0)| && i <= |Row(t, 0)|
      && LeafEnts(t', 0) == LeftPart(Row(t, 0), n, i, e) && LeafEnts(t', 1) == RightPart(Row(t, 0), n, i, e)
      && O.Sep(t', 0, 0) == Row(t, 0)[n - 1].key && |t'.pool| + 2 == |t.pool|
  {
    hide LeafIndex, Blocks, BlocksOk, LevelOk, LeafPosition, Taken, Flat, LeftPart, RightPart;
    T.FullLeafTakes(c, t, e.key);
    T.OneLeafRow(c, t);
    T.OneLeafTarget(c, t, e.key);
    T.PoolOfOne(t);
    T.BlockCount(t');
    T.ThreeNodes(c, t');
  }
}
