/** Trees of one leaf and of two: their rows, where a key is looked for, and what one step takes and gives back. */
module BmTreeTwoLeaves {
  import opened BmTreeModel
  import opened BmTreeShape
  import opened BmTreeLocate
  import opened BmTreeOrder
  import opened BmTreeCounts

  ghost predicate TwoLeaves(t: Tree) {
    |t.levels| == 2 && |t.levels[0]| == 2 && |t.levels[1]| == 1
  }

  lemma OneLeafRow(c: Caps, t: Tree)
    requires Ready(c, t, 0) && |t.levels| == 1
    ensures |t.levels[0]| == 1 && t.levels[0][0] == t.root && LeafEnts(t, 0) == Row(t, 0)
  {
    TopView(c, t);
    FlatOne(t.disk, t.levels[0][0]);
    assert t.levels[0] == [t.levels[0][0]];
  }

  lemma TwoLeafRow(t: Tree)
    requires TwoLeaves(t)
    ensures Row(t, 0) == LeafEnts(t, 0) + LeafEnts(t, 1)
  {
    FlatTwo(t.disk, t.levels[0][0], t.levels[0][1]);
    assert t.levels[0] == [t.levels[0][0], t.levels[0][1]];
  }

  /** The root over two leaves. */
  lemma TwoLeafRoot(c: Caps, t: Tree)
    requires Ready(c, t, 0) && TwoLeaves(t)
    ensures t.levels[1][0] == t.root && Before(t, 1, 0) == 0
    ensures var es := Ents(t.disk, t.root);
            |es| == 2 && es[0] == Entry(Sep(t, 0, 0), t.levels[0][0]) && es[1].rec == t.levels[0][1]
  {
    RowLength(c, t, 1);
    TopView(c, t);
    FlatOne(t.disk, t.levels[1][0]);
    assert t.levels[1] == [t.levels[1][0]] && t.levels[1][..0] == [];
    assert LevelOk(c, t.disk, t.levels, 0);
    var es := Ents(t.disk, t.root);
    assert es == Row(t, 1) && Recs(es) == t.levels[0];
    assert Recs(es)[0] == es[0].rec && Recs(es)[1] == es[1].rec;
  }

  lemma Routes(es: seq<Entry>, key: int)
    requires |es| == 2
    ensures RouteFrom(es, key, 0) == if es[0].key <= key then 1 else 0
  {
    assert RouteFrom(es, key, 1) == 1;
  }

  /** A key is looked for to the right of the separator that it equals. */
  lemma TwoLeafTarget(c: Caps, t: Tree, key: int)
    requires Ready(c, t, 0) && TwoLeaves(t)
    ensures Target(t, key) == if Sep(t, 0, 0) <= key then 1 else 0
    ensures var leaf := LeafView(t.disk, Top(t.root), 1, key);
            leaf == Child(t.levels[0][Target(t, key)], Top(t.root), Target(t, key))
  {
    hide Blocks, BlocksOk, Shape, Flat;
    TwoLeafRoot(c, t);
    var es := Ents(t.disk, t.root);
    Routes(es, key);
    var i := RouteFrom(es, key, 0);
    LeafOfStep(t, 1, 0, key);
    LeafOfStep(t, 0, i, key);
  }

  lemma OneLeafTarget(c: Caps, t: Tree, key: int)
    requires Ready(c, t, 0) && |t.levels| == 1
    ensures Target(t, key) == 0 && LeafView(t.disk, Top(t.root), 0, key) == Top(t.root)
    ensures forall i: nat :: LeafPosition(t, 0, i) == i
  {
    OneLeafRow(c, t);
    FlatNone(t.disk);
    assert t.levels[0][..0] == [];
  }

  lemma RootFacts(c: Caps, t: Tree)
    requires Ready(c, t, 0) && |t.levels| == 1 && |t.levels[0]| == 1
    ensures |LeafEnts(t, 0)| <= Cap(c, 0)
  {
    NodeFacts(c, t, 0, 0);
  }

  // ---- Blocks ----

  lemma BlockCount(t: Tree)
    ensures |Blocks(t.pool, t.levels)| == |t.pool| + |Bag(t.levels)|
  {}

  lemma PoolOfOne(t: Tree)
    requires |t.levels| == 1 && |t.levels[0]| == 1
    ensures |Blocks(t.pool, t.levels)| == |t.pool| + 1
  {
    assert t.levels[1..] == [] && Bag(t.levels) == multiset(t.levels[0]) + Bag([]);
  }

  lemma PoolOfTwo(t: Tree)
    requires TwoLeaves(t)
    ensures |Blocks(t.pool, t.levels)| == |t.pool| + 3
  {
    assert t.levels[1..][1..] == [] && Bag(t.levels[1..]) == multiset(t.levels[1]) + Bag([]);
    assert Bag(t.levels) == multiset(t.levels[0]) + Bag(t.levels[1..]);
  }

  /** Every level has a node. */
  lemma {:induction false} BagSize(c: Caps, t: Tree, k: nat)
    requires Ready(c, t, 0) && k <= |t.levels|
    ensures |Bag(t.levels[k..])| >= |t.levels| - k
    decreases |t.levels| - k
  {
    if k < |t.levels| {
      BagSize(c, t, k + 1);
      assert t.levels[k..][1..] == t.levels[k + 1..];
      assert LevelOk(c, t.disk, t.levels, k);
    }
  }

  lemma OneNode(c: Caps, t: Tree)
    requires Ready(c, t, 0) && |Bag(t.levels)| == 1
    ensures |t.levels| == 1
  {
    BagSize(c, t, 0);
    assert t.levels[0..] == t.levels;
    TopView(c, t);
  }

  lemma ThreeNodes(c: Caps, t: Tree)
    requires Ready(c, t, 0) && |Bag(t.levels)| == 3 && |t.levels[0]| == 2
    ensures TwoLeaves(t)
  {
    hide LevelOk;
    BagSize(c, t, 1);
    assert Bag(t.levels) == multiset(t.levels[0]) + Bag(t.levels[1..]);
    TopView(c, t);
    if |t.levels| > 1 {
      assert t.levels[1] == t.levels[|t.levels| - 1];
    }
  }

  /** A full root leaf makes room for a sibling and a root. */
  lemma FullLeafTakes(c: Caps, t: Tree, key: int)
    requires Ready(c, t, 0) && |t.levels| == 1
    ensures Taken(c, t, key) == if |Row(t, 0)| < Cap(c, 0) then 0 else 2
    ensures Released(c, t, key) == 0
  {
    OneLeafTarget(c, t, key);
    OneLeafRow(c, t);
  }

  /** Two leaves that fit into one free the other and the root. */
  lemma TwoLeavesRelease(c: Caps, t: Tree, key: int)
    requires Ready(c, t, 0) && TwoLeaves(t)
    ensures var x := Target(t, key);
            x < 2 && Released(c, t, key) ==
              if |LeafEnts(t, x)| <= Cap(c, 0) / 2 && |LeafEnts(t, 0)| + |LeafEnts(t, 1)| <= Cap(c, 0) + 1 then 2 else 0
  {
    hide Blocks, BlocksOk, Shape, Flat;
    TwoLeafTarget(c, t, key);
    TwoLeafRoot(c, t);
    var x := Target(t, key);
    assert Frees(c, t.disk, Top(t.root), 1) == 1;
    assert Sibling(Ents(t.disk, t.root), x) == t.levels[0][1 - x];
  }

  lemma TwoLeavesTake(c: Caps, t: Tree, key: int)
    requires Ready(c, t, 0) && TwoLeaves(t)
    ensures Target(t, key) < 2
    ensures |LeafEnts(t, Target(t, key))| < Cap(c, 0) ==> Taken(c, t, key) == 0
  {
    TwoLeafTarget(c, t, key);
  }
}
