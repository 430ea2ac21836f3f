/**
 A state in which refilling the spare clusters never ends. The tree of free extents has two leaves; three extents of one
 cluster lie around their separator, and the leaves are just so full that taking one of the three out joins the leaves
 and putting it back splits them as they were.
 */
module RefillSpin {
  import opened BmTreeModel
  import opened BmTreeShape
  import opened BmTreeLocate
  import opened BmTreeOrder
  import opened BmTreeCounts
  import opened BmTreeLeaves
  import opened BmTreeTwoLeaves
  import opened BmTreeSteps
  import opened FreeSpace
  import opened RefillRounds
  import opened RefillEnds
  import D = BmTreeOrderRemove
  import S = BmTreeSearch

  ghost predicate Around(es: seq<Entry>, n: nat, size: int) {
    Sorted(es) && 0 < n < |es| && es[n - 1].key == es[n].key == size
  }

  /**
   The leaf capacity is twice `n`; entries `n - 1` to `n + 1` have the key `size`, and the second leaf starts at the
   last of them.
   */
  ghost predicate Spinning(c: Caps, t: Tree, size: int) {
    var n := c.leaf / 2;
    && 2 <= n && c.leaf == 2 * n
    && TwoLeaves(t) && |LeafEnts(t, 0)| == n + 1 && |LeafEnts(t, 1)| == n && Sep(t, 0, 0) == size
    && Around(Row(t, 0), n, size) && |Row(t, 0)| == 2 * n + 1 && Row(t, 0)[n + 1].key == size < Row(t, 0)[n + 2].key
  }

  /** Between the two halves of a round: one full leaf. */
  ghost predicate HalfRound(c: Caps, t: Tree, size: int) {
    var n := c.leaf / 2;
    && 2 <= n && c.leaf == 2 * n
    && |t.levels| == 1 && |t.levels[0]| == 1 && LeafEnts(t, 0) == Row(t, 0)
    && Around(Row(t, 0), n, size) && |Row(t, 0)| == 2 * n && size < Row(t, 0)[n + 1].key
  }

  /** What the removal of a cluster finds: the first entry of the second leaf. */
  lemma SpinStarts(c: Caps, t: Tree, size: int)
    requires Ready(c, t, 0) && Spinning(c, t, size)
    ensures CanTake(t, size) && TakenAt(t, size) == c.leaf / 2 + 1 && TakenEntry(t, size).key == size
    ensures Released(c, t, size) == 2
  {
    hide Shape, Blocks, BlocksOk, Flat;
    TwoLeafRow(t);
    TwoLeafTarget(c, t, size);
    TwoLeavesRelease(c, t, size);
    var n := c.leaf / 2;
    var es := LeafEnts(t, 1);
    assert es[0] == Row(t, 0)[n + 1] && es[1] == Row(t, 0)[n + 2];
    FirstOfTwo(es, size);
    SecondLeafStarts(t);
  }

  lemma SecondLeafStarts(t: Tree)
    requires TwoLeaves(t)
    ensures forall i: nat :: LeafPosition(t, 1, i) == |LeafEnts(t, 0)| + i
  {
    FlatOne(t.disk, t.levels[0][0]);
    assert t.levels[0][..1] == [t.levels[0][0]];
  }

  lemma FirstOfTwo(es: seq<Entry>, size: int)
    requires |es| >= 2 && es[0].key == size < es[1].key
    ensures LeafIndex(es, size) == 0
  {
    assert CeilFrom(es, size, 0) == 0;
    assert LastEqual(es, size, 0) == 0;
  }

  /** The first half of a round: two blocks come back. */
  lemma SpinTake(c: Caps, t: Tree, t': Tree, size: int)
    requires Spinning(c, t, size) && TookOut(c, t, t', size)
    ensures HalfRound(c, t', size) && |t'.pool| == |t.pool| + 2
  {
    hide LevelOk, BlocksOk, Flat, Blocks, LeafPosition, LeafIndex, Target, LeafTaken, Bag;
    SpinStarts(c, t, size);
    var n, es, es' := c.leaf / 2, Row(t, 0), Row(t', 0);
    D.SortedRemove(es, n + 1);
    assert es'[n - 1] == es[n - 1] && es'[n] == es[n] && es'[n + 1] == es[n + 2];
    PoolOfTwo(t);
    BlockCount(t');
    OneNode(c, t');
    OneLeafRow(c, t');
  }

  /** Where the extent goes back to: before the last one of its length. */
  lemma HalfStarts(c: Caps, t: Tree, size: int)
    requires Ready(c, t, 0) && HalfRound(c, t, size)
    ensures PutAt(t, size) == c.leaf / 2 == LeafIndex(LeafEnts(t, 0), size) && Target(t, size) == 0
    ensures Taken(c, t, size) == 2
  {
    hide Shape, Blocks, BlocksOk, Flat;
    OneLeafTarget(c, t, size);
    FullLeafTakes(c, t, size);
    S.LeafIndexAround(Row(t, 0), size);
  }

  /** The second half of a round: the two blocks are taken again, and everything is as it was. */
  lemma SpinGive(c: Caps, t: Tree, t': Tree, size: int, e: Entry)
    requires HalfRound(c, t, size) && PutIn(c, t, t', e) && e.key == size
    ensures Spinning(c, t', size) && |t.pool| == |t'.pool| + 2
  {
    hide LevelOk, BlocksOk, Flat, Blocks, LeafPosition, LeafIndex, Target, Bag;
    HalfStarts(c, t, size);
    var n, es, es' := c.leaf / 2, Row(t, 0), Row(t', 0);
    SortedInsert(es, n, e);
    assert es'[n - 1] == es[n - 1] && es'[n] == e && es'[n + 1] == es[n] && es'[n + 2] == es[n + 1];
    PoolOfOne(t);
    BlockCount(t');
    ThreeNodes(c, t');
    PartLengths(es, n, e);
  }

  lemma PartLengths(es: seq<Entry>, n: nat, e: Entry)
    requires n <= |es|
    ensures |LeftPart(es, n, n, e)| == n + 1 && |RightPart(es, n, n, e)| == |es| - n
  {}

  /** A whole round. */
  lemma SpinRound(c: Caps, t: Tree, t1: Tree, t2: Tree, size: int, e: Entry)
    requires Ready(c, t, 0) && Spinning(c, t, size) && TookOut(c, t, t1, size) && e.key == TakenEntry(t, size).key
    ensures Taken(c, t1, e.key) <= |t1.pool|
    ensures PutIn(c, t1, t2, e) ==> Ready(c, t2, 0) && Spinning(c, t2, size) && |t2.pool| == |t.pool|
  {
    hide Ready, Spinning, HalfRound, CanTake, TookOut, PutIn, TakenEntry, Released, Taken;
    SpinStarts(c, t, size);
    SpinTake(c, t, t1, size);
    TookReady(c, t, t1, size);
    HalfStarts(c, t1, size);
    if PutIn(c, t1, t2, e) {
      SpinGive(c, t1, t2, size, e);
      PutReady(c, t1, t2, e);
    }
  }

  /** Such a tree keeps refilling busy for any number of rounds. */
  lemma {:induction false} SpinIdles(m: Marks, c: Caps, t: Tree, n: nat)
    requires Ready(c, t, 0) && Spinning(c, t, m.size) && |t.pool| < m.low <= |t.pool| + 2 <= m.high && m.size > 0
    ensures Idles(m, c, t, n)
    decreases n
  {
    hide Ready, Spinning, HalfRound, CanTake, Released, Moved, Refilled, Short;
    if n > 0 {
      SpinStarts(c, t, m.size);
      forall r: Round | Moved(m, c, t, r)
        ensures !Short(m, c, t, r)
        ensures Refilled(m, c, t, r) ==> |r.after.pool| < m.low && Idles(m, c, r.after, n - 1) {
        IdleSpin(m, c, t, r);
        if Refilled(m, c, t, r) {
          SpinIdles(m, c, r.after, n - 1);
        }
      }
    }
  }

  lemma IdleSpin(m: Marks, c: Caps, t: Tree, r: Round)
    requires Ready(c, t, 0) && Spinning(c, t, m.size) && m.low <= |t.pool| + 2 && m.size > 0 && Moved(m, c, t, r)
    ensures !Short(m, c, t, r)
    ensures Refilled(m, c, t, r) ==>
              Ready(c, r.after, 0) && Spinning(c, r.after, m.size) && |r.after.pool| == |t.pool|
  {
    hide Ready, Spinning, HalfRound, CanTake, TookOut, PutIn, TakenEntry, Released, Taken, Packed, Unpacked, Moves;
    hide Stocked;
    SpinStarts(c, t, m.size);
    IdleRound(m, c, t, r);
    SpinRound(c, t, r.mid, r.after, m.size, Filing(r.rest));
  }

  // ---- Getting there ----

  /** A spinning tree with one more entry, above all others. */
  ghost predicate SpinPlus(c: Caps, t: Tree, size: int) {
    var n := c.leaf / 2;
    && 2 <= n && c.leaf == 2 * n
    && TwoLeaves(t) && |LeafEnts(t, 0)| == n + 1 && |LeafEnts(t, 1)| == n + 1 && Sep(t, 0, 0) == size
    && Around(Row(t, 0), n, size) && |Row(t, 0)| == 2 * n + 2 && Row(t, 0)[n + 1].key == size < Row(t, 0)[n + 2].key
    && Row(t, 0)[2 * n].key < Row(t, 0)[2 * n + 1].key
  }

  /** Below a higher key, the second leaf of a spinning tree has room. */
  lemma PlusStarts(c: Caps, t: Tree, size: int, key: int)
    requires Ready(c, t, 0) && Spinning(c, t, size) && Row(t, 0)[c.leaf].key < key
    ensures Taken(c, t, key) == 0 && Target(t, key) == 1
    ensures LeafIndex(LeafEnts(t, 1), key) == c.leaf / 2 && PutAt(t, key) == c.leaf + 1
  {
    hide LevelOk, Blocks, BlocksOk, Flat;
    TwoLeafRow(t);
    TwoLeafTarget(c, t, key);
    TwoLeavesTake(c, t, key);
    SecondLeafStarts(t);
    SecondLeafBelow(t, key);
  }

  lemma SecondLeafBelow(t: Tree, key: int)
    requires TwoLeaves(t) && Sorted(Row(t, 0)) && Row(t, 0) != [] && Row(t, 0)[|Row(t, 0)| - 1].key < key
    ensures LeafIndex(LeafEnts(t, 1), key) == |LeafEnts(t, 1)|
  {
    hide Flat;
    TwoLeafRow(t);
    var es := LeafEnts(t, 1);
    forall i | 0 <= i < |es| ensures es[i].key < key {
      assert es[i] == Row(t, 0)[|LeafEnts(t, 0)| + i];
    }
  }

  lemma PlusPut(c: Caps, t: Tree, t': Tree, size: int, e: Entry)
    requires Spinning(c, t, size) && Row(t, 0)[c.leaf].key < e.key && PutIn(c, t, t', e)
    ensures SpinPlus(c, t', size) && |t'.pool| == |t.pool| && Row(t', 0) == Row(t, 0) + [e]
  {
    hide LevelOk, Blocks, BlocksOk, Flat, LeafIndex, LeafPosition, Target, Taken;
    PlusStarts(c, t, size, e.key);
    SortedInsert(Row(t, 0), c.leaf + 1, e);
    AppendsAt(Row(t, 0), e);
    AppendsAt(LeafEnts(t, 1), e);
  }

  lemma AppendsAt(es: seq<Entry>, e: Entry)
    ensures InsertAt(es, |es|, e) == es + [e]
  {}

  /** Taking that entry out again leaves the tree spinning. */
  lemma PlusTakes(c: Caps, t: Tree, size: int)
    requires Ready(c, t, 0) && SpinPlus(c, t, size)
    ensures var key := Row(t, 0)[c.leaf + 1].key;
      && CanTake(t, key) && TakenAt(t, key) == c.leaf + 1 && TakenEntry(t, key).key == key
      && Target(t, key) == 1 && TakeIndex(LeafEnts(t, 1), key, false) == c.leaf / 2
      && Released(c, t, key) == 0
  {
    hide LevelOk, Blocks, BlocksOk, Flat;
    var key := Row(t, 0)[c.leaf + 1].key;
    TwoLeafRow(t);
    TwoLeafTarget(c, t, key);
    TwoLeavesRelease(c, t, key);
    SecondLeafStarts(t);
    var es, n := LeafEnts(t, 1), c.leaf / 2;
    assert es[n] == Row(t, 0)[n + 1 + n];
    forall i | 0 <= i < n ensures es[i].key < key {
      assert es[i] == Row(t, 0)[n + 1 + i];
    }
    OnlyLast(es, key);
  }

  lemma OnlyLast(es: seq<Entry>, key: int)
    requires es != [] && es[|es| - 1].key == key && forall i :: 0 <= i < |es| - 1 ==> es[i].key < key
    ensures LeafIndex(es, key) == |es| - 1
  {}

  lemma PlusTake(c: Caps, t: Tree, t': Tree, size: int, key: int)
    requires SpinPlus(c, t, size) && key == Row(t, 0)[c.leaf + 1].key && TookOut(c, t, t', key)
    ensures Spinning(c, t', size) && |t'.pool| == |t.pool|
  {
    hide LevelOk, Blocks, BlocksOk, Flat, LeafIndex, LeafPosition, Target, Released, Holds, TakeIndex;
    PlusTakes(c, t, size);
    var es := Row(t, 0);
    D.SortedRemove(es, c.leaf + 1);
    assert Row(t', 0) == es[..c.leaf + 1];
  }
}
