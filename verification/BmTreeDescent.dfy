/** Where a search goes in a tree whose separators may be too low, but are never too high. */
module BmTreeDescent {
  import opened BmTreeModel
  import opened BmTreeShape
  import opened BmTreeLocate
  import opened BmTreeOrder
  import opened BmTreeSubtree

  /** The first node of level `k` below node `p` of level `l`, or behind all nodes below it if `p` is behind its row. */
  ghost function First(t: Tree, l: nat, p: nat, k: nat): nat
    decreases l
  {
    if l <= k then p else First(t, l - 1, Off(t, l, p), k)
  }

  /** The node of level `k` that the way down from node `p` of level `l` passes. */
  ghost function Reach(t: Tree, l: nat, p: nat, key: int, k: nat): nat
    decreases l
  {
    if l <= k || l >= |t.levels| || p >= |t.levels[l]| || Ents(t.disk, t.levels[l][p]) == [] then p
    else Reach(t, l - 1, Before(t, l, p) + RouteFrom(Ents(t.disk, t.levels[l][p]), key, 0), key, k)
  }

  lemma {:induction false} FirstOrder(c: Caps, t: Tree, l: nat, a: nat, b: nat, k: nat)
    requires Ready(c, t, 0) && k <= l < |t.levels| && a <= b <= |t.levels[l]|
    ensures First(t, l, a, k) <= First(t, l, b, k) <= |t.levels[k]|
    ensures a < b ==> First(t, l, a, k) < First(t, l, b, k)
    ensures First(t, l, |t.levels[l]|, k) == |t.levels[k]|
    decreases l
  {
    hide Blocks, BlocksOk, Shape;
    if l > k {
      OffBounds(c, t, l, a, b);
      if a < b {
        OffBounds(c, t, l, a + 1, b);
        OffNext(c, t, l, a);
        NodeFilled(c, t, l, a);
      }
      FirstOrder(c, t, l - 1, Off(t, l, a), Off(t, l, b), k);
    }
  }

  lemma NodeFilled(c: Caps, t: Tree, l: nat, p: nat)
    requires Ready(c, t, 0) && 0 < l < |t.levels| && p < |t.levels[l]|
    ensures |Ents(t.disk, t.levels[l][p])| >= 2
  {
    UpperReady(c, t, l);
    NodeFacts(c, t, l, p);
  }

  /** The child that the search goes on to. */
  lemma NextNode(c: Caps, t: Tree, l: nat, p: nat, key: int)
    requires Ready(c, t, 0) && 0 < l < |t.levels| && p < |t.levels[l]|
    ensures var es := Ents(t.disk, t.levels[l][p]);
            |es| >= 2 && Off(t, l, p) + RouteFrom(es, key, 0) < Off(t, l, p + 1) <= |t.levels[l - 1]|
  {
    hide Blocks, BlocksOk, Shape, RouteFrom;
    NodeFilled(c, t, l, p);
    OffNext(c, t, l, p);
    OffBounds(c, t, l, p, p + 1);
  }

  lemma {:induction false} InRange(c: Caps, t: Tree, l: nat, p: nat, key: int, k: nat)
    requires Ready(c, t, 0) && k <= l < |t.levels| && p < |t.levels[l]|
    ensures First(t, l, p, k) <= Reach(t, l, p, key, k) < First(t, l, p + 1, k) <= |t.levels[k]|
    decreases l
  {
    hide Blocks, BlocksOk, Shape, RouteFrom, Before;
    FirstOrder(c, t, l, p, p + 1, k);
    if l > k {
      NextNode(c, t, l, p, key);
      var q := Off(t, l, p) + RouteFrom(Ents(t.disk, t.levels[l][p]), key, 0);
      InRange(c, t, l - 1, q, key, k);
      FirstOrder(c, t, l - 1, Off(t, l, p), q, k);
      FirstOrder(c, t, l - 1, q + 1, Off(t, l, p + 1), k);
    }
  }

  lemma {:induction false} ReachLeaf(c: Caps, t: Tree, l: nat, p: nat, key: int, k: nat)
    requires Ready(c, t, 0) && k <= l < |t.levels| && p < |t.levels[l]|
    ensures LeafOf(t, l, p, key) == LeafOf(t, k, Reach(t, l, p, key, k), key)
    ensures k == 0 ==> LeafOf(t, l, p, key) == Reach(t, l, p, key, 0)
    decreases l
  {
    hide Blocks, BlocksOk, Shape, RouteFrom, Before;
    if l > k {
      NextNode(c, t, l, p, key);
      LeafOfStep(t, l, p, key);
      ReachLeaf(c, t, l - 1, Off(t, l, p) + RouteFrom(Ents(t.disk, t.levels[l][p]), key, 0), key, k);
    }
  }

  /** The last entry of node `p` is the separator to the right of its last child. */
  lemma LastChildSep(c: Caps, t: Tree, l: nat, p: nat)
    requires Ready(c, t, 0) && 0 < l < |t.levels| && p < |t.levels[l]|
    ensures var es := Ents(t.disk, t.levels[l][p]);
            && 2 <= |es| <= Off(t, l, p + 1) <= |Row(t, l)| == |t.levels[l - 1]|
            && Sep(t, l - 1, Off(t, l, p + 1) - 1) == LastKey(es)
            && Sep(t, l - 1, Off(t, l, p + 1) - 2) == es[|es| - 2].key
            && forall i :: 0 <= i < |es| ==> Sep(t, l - 1, Off(t, l, p) + i) == es[i].key
  {
    hide Blocks, BlocksOk, Shape, Flat;
    NodeFilled(c, t, l, p);
    RowLength(c, t, l);
    EntryInRow(t, l, p);
    var es, b := Ents(t.disk, t.levels[l][p]), Before(t, l, p);
    assert Row(t, l)[b + (|es| - 1)] == es[|es| - 1] && Row(t, l)[b + (|es| - 2)] == es[|es| - 2];
    forall i | 0 <= i < |es| ensures Sep(t, l - 1, Off(t, l, p) + i) == es[i].key {
      assert Row(t, l)[b + i] == es[i];
    }
  }

  /** A separator is at most that of the last node below on a lower level. */
  lemma {:induction false} SepChain(c: Caps, t: Tree, l: nat, p: nat, k: nat)
    requires Ready(c, t, 0) && LeansUp(t, k + 1) && k <= l < |t.levels| && p + 1 < |t.levels[l]|
    ensures 0 < First(t, l, p + 1, k) < |t.levels[k]| && Sep(t, l, p) <= Sep(t, k, First(t, l, p + 1, k) - 1)
    decreases l
  {
    hide Ready, LeansUp, Leans, Sep, Off;
    FirstOrder(c, t, l, p + 1, |t.levels[l]|, k);
    FirstOrder(c, t, l, p, p + 1, k);
    if l > k {
      SepOfLastChild(c, t, l, p, k);
      SepChain(c, t, l - 1, Off(t, l, p + 1) - 1, k);
    }
  }

  lemma SepOfLastChild(c: Caps, t: Tree, l: nat, p: nat, k: nat)
    requires Ready(c, t, 0) && LeansUp(t, k + 1) && k < l < |t.levels| && p + 1 < |t.levels[l]|
    ensures 0 < Off(t, l, p + 1) < |t.levels[l - 1]| && Sep(t, l, p) <= Sep(t, l - 1, Off(t, l, p + 1) - 1)
  {
    hide Ready, SortedSeps, Sep, Off;
    assert Leans(t, l);
    LastChildSep(c, t, l, p);
    OffBounds(c, t, l, p + 1, |t.levels[l]|);
    OffNext(c, t, l, p + 1);
    OffBounds(c, t, l, p + 2, |t.levels[l]|);
    NodeFilled(c, t, l, p + 1);
  }

  /** Unless `q` is the last node below `p`, a key from its separator upwards leads past it. */
  lemma {:induction false} Beyond(c: Caps, t: Tree, l: nat, p: nat, key: int, k: nat, q: nat)
    requires Ready(c, t, 0) && LeansUp(t, k + 1) && k <= l < |t.levels| && p < |t.levels[l]|
    requires q + 1 < |t.levels[k]| && Sep(t, k, q) <= key
    requires q < First(t, l, p, k) || q + 1 < First(t, l, p + 1, k)
    ensures q < Reach(t, l, p, key, k) < |t.levels[k]|
    decreases l
  {
    hide Blocks, BlocksOk, Shape, Before, LeansUp, RouteFrom;
    InRange(c, t, l, p, key, k);
    if l > k && q >= First(t, l, p, k) {
      NextNode(c, t, l, p, key);
      var r := RouteFrom(Ents(t.disk, t.levels[l][p]), key, 0);
      var x := Off(t, l, p) + r;
      if q >= First(t, l - 1, x, k) && q + 1 >= First(t, l - 1, x + 1, k) {
        NotStopped(c, t, l, p, key, k, q);
        assert false;
      }
      Beyond(c, t, l - 1, x, key, k, q);
    }
  }

  /** The search does not stop at a child that ends no later than `q`. */
  lemma NotStopped(c: Caps, t: Tree, l: nat, p: nat, key: int, k: nat, q: nat)
    requires Ready(c, t, 0) && LeansUp(t, k + 1) && k < l < |t.levels| && p < |t.levels[l]|
    requires q + 1 < |t.levels[k]| && Sep(t, k, q) <= key && q + 1 < First(t, l, p + 1, k)
    requires Ents(t.disk, t.levels[l][p]) != []
    ensures var x := Off(t, l, p) + RouteFrom(Ents(t.disk, t.levels[l][p]), key, 0); q + 1 < First(t, l - 1, x + 1, k)
  {
    hide Ready, Before, LeansUp, RouteFrom, Off, Sep;
    NextNode(c, t, l, p, key);
    var es := Ents(t.disk, t.levels[l][p]);
    var r := RouteFrom(es, key, 0);
    var x := Off(t, l, p) + r;
    OffNext(c, t, l, p);
    if q + 1 >= First(t, l - 1, x + 1, k) {
      assert First(t, l, p + 1, k) == First(t, l - 1, Off(t, l, p + 1), k);
      assert r < |es| - 1;
      StoppedBelow(c, t, l, p, key, k, r);
      SepsAscend(c, t, k, First(t, l - 1, x + 1, k) - 1, q);
    }
  }

  lemma StoppedBelow(c: Caps, t: Tree, l: nat, p: nat, key: int, k: nat, r: nat)
    requires Ready(c, t, 0) && LeansUp(t, k + 1) && k < l < |t.levels| && p < |t.levels[l]|
    requires var es := Ents(t.disk, t.levels[l][p]); |es| > r + 1 && r == RouteFrom(es, key, 0)
    ensures var y := First(t, l - 1, Off(t, l, p) + r + 1, k); 0 < y < |t.levels[k]| && key < Sep(t, k, y - 1)
  {
    hide Blocks, BlocksOk, Shape, Before, Leans;
    var x := Off(t, l, p) + r;
    OffNext(c, t, l, p);
    OffBounds(c, t, l, p, p + 1);
    LastChildSep(c, t, l, p);
    SepChain(c, t, l - 1, x, k);
    assert key < Ents(t.disk, t.levels[l][p])[r].key == Sep(t, l - 1, x);
  }

  lemma SepsAscend(c: Caps, t: Tree, k: nat, a: nat, b: nat)
    requires Ready(c, t, 0) && LeansUp(t, k + 1) && k + 1 < |t.levels| && a <= b && b + 1 < |t.levels[k]|
    ensures Sep(t, k, a) <= Sep(t, k, b)
  {
    hide Blocks, BlocksOk, Shape;
    assert Leans(t, k + 1);
    RowLength(c, t, k + 1);
  }

  /** A key from the separator of a node upwards is looked for behind everything below that node. */
  lemma TargetBeyond(c: Caps, t: Tree, key: int, k: nat, q: nat)
    requires Ready(c, t, 0) && LeansUp(t, k + 1) && k < |t.levels| && q + 1 < |t.levels[k]| && Sep(t, k, q) <= key
    ensures First(t, k, q + 1, 0) <= Target(t, key) < |t.levels[0]|
  {
    hide Blocks, BlocksOk, Shape, Before, LeansUp, First, Reach, LeafOf;
    var l := |t.levels| - 1;
    TopView(c, t);
    FirstOrder(c, t, l, 0, 1, k);
    Beyond(c, t, l, 0, key, k, q);
    var x := Reach(t, l, 0, key, k);
    ReachLeaf(c, t, l, 0, key, k);
    ReachLeaf(c, t, k, x, key, 0);
    InRange(c, t, k, x, key, 0);
    FirstOrder(c, t, k, q + 1, x, 0);
  }

  /** What bounds a node from below bounds its last leaf. */
  lemma {:induction false} LastLeafAbove(c: Caps, t: Tree, l: nat, p: nat, low: int)
    requires Ready(c, t, 0) && LeansUp(t, 1) && l < |t.levels| && 0 < p < |t.levels[l]| && low <= Sep(t, l, p - 1)
    ensures var y := First(t, l, p + 1, 0); 1 < y <= |t.levels[0]| && low <= Sep(t, 0, y - 2)
    decreases l
  {
    hide Ready, LeansUp, Leans, Sep, Off;
    FirstOrder(c, t, l, p, p + 1, 0);
    if l > 0 {
      LastChildAbove(c, t, l, p);
      LastLeafAbove(c, t, l - 1, Off(t, l, p + 1) - 1, low);
    }
  }

  lemma LastChildAbove(c: Caps, t: Tree, l: nat, p: nat)
    requires Ready(c, t, 0) && LeansUp(t, 1) && 0 < l < |t.levels| && 0 < p < |t.levels[l]|
    ensures var x := Off(t, l, p + 1); 1 < x <= |t.levels[l - 1]| && Sep(t, l, p - 1) <= Sep(t, l - 1, x - 2)
  {
    hide Ready, SortedSeps, Sep, Off;
    assert Leans(t, l);
    LastChildSep(c, t, l, p - 1);
    LastChildSep(c, t, l, p);
    OffNext(c, t, l, p);
    RowAscends(c, t, l, Off(t, l, p) - 1, Off(t, l, p + 1) - 2);
  }

  lemma RowAscends(c: Caps, t: Tree, l: nat, a: nat, b: nat)
    requires Ready(c, t, 0) && LeansUp(t, l) && 0 < l < |t.levels| && a <= b && b + 1 < |t.levels[l - 1]|
    ensures Sep(t, l - 1, a) <= Sep(t, l - 1, b)
  {
    SepsAscend(c, t, l - 1, a, b);
  }

  /**
   The last leaf below a node where something was misfiled: its keys are not below the separator, so that a search for
   any of them ends up behind the leaf.
   */
  lemma MisfiledLeaf(c: Caps, t: Tree, k: nat, q: nat) returns (y: nat)
    requires Ready(c, t, 0) && Leaning(t) && 0 < k && MisfiledAt(t, k, q)
    ensures y < |t.levels[0]|
    ensures forall i :: 0 <= i < |LeafEnts(t, y)| ==> y < Target(t, LeafEnts(t, y)[i].key) < |t.levels[0]|
  {
    hide Blocks, BlocksOk, LevelOk, Leans, LeafLeans, Target;
    LastChildSep(c, t, k, q);
    var x := Off(t, k, q + 1) - 1;
    LastLeafAbove(c, t, k - 1, x, Sep(t, k, q));
    FirstOrder(c, t, k, q, q + 1, 0);
    y := First(t, k, q + 1, 0) - 1;
    forall i | 0 <= i < |LeafEnts(t, y)| ensures y < Target(t, LeafEnts(t, y)[i].key) < |t.levels[0]| {
      LeafBound(t, y, i);
      assert LeansUp(t, k + 1);
      TargetBeyond(c, t, LeafEnts(t, y)[i].key, k, q);
    }
  }

  lemma LeafBound(t: Tree, p: nat, i: nat)
    requires t.levels != [] && LeafLeans(t) && 0 < p < |t.levels[0]| && i < |LeafEnts(t, p)|
    ensures Sep(t, 0, p - 1) <= LeafEnts(t, p)[i].key
  {}

  // ---- The way down itself ----

  /** The leaf that the way down reaches is the one of which the view is kept. */
  lemma {:induction false} ViewOfTarget(c: Caps, t: Tree, v: View, l: nat, p: nat, key: int)
    requires Ready(c, t, 0) && l < |t.levels| && p < |t.levels[l]| && v.addr == t.levels[l][p]
    ensures LeafOf(t, l, p, key) < |t.levels[0]|
    ensures LeafView(t.disk, v, l, key).addr == t.levels[0][LeafOf(t, l, p, key)]
    decreases l
  {
    hide Blocks, BlocksOk, LevelOk, RouteFrom, Before;
    LeafOfStep(t, l, p, key);
    if l > 0 {
      NextNode(c, t, l, p, key);
      var es := Ents(t.disk, v.addr);
      var i := RouteFrom(es, key, 0);
      ChildOfRow(c, t, l, p, i);
      ViewOfTarget(c, t, Child(es[i].rec, v, i), l - 1, Before(t, l, p) + i, key);
    }
  }

  /** The way down depends on the inner nodes only. */
  lemma {:induction false} SameWay(c: Caps, t: Tree, t': Tree, l: nat, p: nat, key: int)
    requires Ready(c, t, 0) && SameAbove(t, t') && l < |t.levels| && p < |t.levels[l]|
    ensures LeafOf(t', l, p, key) == LeafOf(t, l, p, key)
    decreases l
  {
    hide Blocks, BlocksOk, LevelOk, RouteFrom, LeafOf;
    LeafOfStep(t, l, p, key);
    LeafOfStep(t', l, p, key);
    if l > 0 {
      NextNode(c, t, l, p, key);
      FlatFrame(t.disk, t'.disk, t.levels[l][..p]);
      var i := RouteFrom(Ents(t.disk, t.levels[l][p]), key, 0);
      assert Before(t', l, p) == Before(t, l, p) == Off(t, l, p);
      SameWay(c, t, t', l - 1, Before(t, l, p) + i, key);
    }
  }
}
