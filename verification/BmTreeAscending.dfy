/** Keys that are not below any stored one: they always go to the right edge of the tree, where nothing is misfiled. */
module BmTreeAscending {
  import opened BmTreeModel
  import opened BmTreeShape
  import opened BmTreeLocate
  import opened BmTreeOrder
  import opened BmTreeSearch

  /** No stored key is above `key`. */
  ghost predicate AtTop(t: Tree, key: int)
    requires t.levels != []
  {
    forall e :: e in Row(t, 0) ==> e.key <= key
  }

  // ---- The whole sequence is in order ----

  lemma {:induction false} SortedFlat(c: Caps, t: Tree, x: nat)
    requires Ready(c, t, 0) && Ordered(t) && x <= |t.levels[0]|
    ensures Sorted(Flat(t.disk, t.levels[0][..x]))
    decreases x
  {
    hide Flat, Shape, Blocks, BlocksOk, OrderedAt;
    if x == 0 {
      FlatNone(t.disk);
      assert t.levels[0][..0] == [];
    } else {
      var before, es := Flat(t.disk, t.levels[0][..x - 1]), LeafEnts(t, x - 1);
      SortedFlat(c, t, x - 1);
      FlatAt(t.disk, t.levels[0], x - 1);
      assert LeafOk(t, x - 1);
      forall i, j | 0 <= i < |before| && 0 <= j < |es| ensures before[i].key <= es[j].key {
        assert before[i] in before;
        var y, k := EntryPlace(t.disk, t.levels[0][..x - 1], before[i]);
        AfterLeaf(c, t, y, x - 1);
        assert LeafEnts(t, y)[k].key <= es[j].key;
      }
      SortedBoth(before, es);
    }
  }

  lemma SortedBoth(a: seq<Entry>, b: seq<Entry>)
    requires Sorted(a) && Sorted(b) && forall i, j :: 0 <= i < |a| && 0 <= j < |b| ==> a[i].key <= b[j].key
    ensures Sorted(a + b)
  {}

  /** The entries of an ordered tree are sorted by key. */
  lemma OrderedSorted(c: Caps, t: Tree)
    requires Ready(c, t, 0) && Ordered(t)
    ensures Sorted(Row(t, 0))
  {
    SortedFlat(c, t, |t.levels[0]|);
    assert t.levels[0][..|t.levels[0]|] == t.levels[0];
  }

  // ---- The right edge ----

  lemma {:induction false} SepsAtMost(c: Caps, t: Tree, key: int, k: nat, q: nat)
    requires Ready(c, t, 0) && Ordered(t) && AtTop(t, key) && k < |t.levels| && q + 1 < |t.levels[k]|
    ensures Sep(t, k, q) <= key
    decreases k
  {
    hide Flat, Shape, Blocks, BlocksOk;
    UpperReady(c, t, k);
    NodeFacts(c, t, k, q + 1);
    EntryInRow(t, k, q + 1);
    var next := Ents(t.disk, t.levels[k][q + 1]);
    assert Row(t, k)[Before(t, k, q + 1) + 0] == next[0];
    if k == 0 {
      assert LeafOk(t, q + 1);
      assert next[0] in Row(t, 0);
    } else {
      assert OrderedAt(t, k) && EndsAtSep(t, k, q);
      NodeFacts(c, t, k, q);
      EntryInRow(t, k, q);
      RowLength(c, t, k);
      var es := Ents(t.disk, t.levels[k][q]);
      var x := Before(t, k, q) + (|es| - 1);
      assert Row(t, k)[x] == es[|es| - 1];
      SepBelow(t, k, x);
      SepsAtMost(c, t, key, k - 1, x);
    }
  }

  /** At the right edge the way down takes the last child. */
  lemma LastChildTaken(c: Caps, t: Tree, key: int, l: nat, p: nat)
    requires Ready(c, t, 0) && Ordered(t) && AtTop(t, key) && 0 < l < |t.levels| && p + 1 == |t.levels[l]|
    ensures var es := Ents(t.disk, t.levels[l][p]);
            es != [] && RouteFrom(es, key, 0) == |es| - 1 && Before(t, l, p) + |es| == |t.levels[l - 1]|
  {
    hide Flat, Shape, Blocks, BlocksOk, AtTop, Ordered;
    UpperReady(c, t, l);
    NodeFacts(c, t, l, p);
    EntryInRow(t, l, p);
    RowLength(c, t, l);
    var es := Ents(t.disk, t.levels[l][p]);
    forall i | 0 <= i < |es| - 1 ensures es[i].key <= key {
      var x := Before(t, l, p) + i;
      assert Row(t, l)[x] == es[i];
      SepBelow(t, l, x);
      SepsAtMost(c, t, key, l - 1, x);
    }
  }

  /** Every step up from the viewed node is from a last child. */
  ghost predicate RightEdge(d: Disk, v: View)
    decreases v
  {
    v.Child? ==> v.index + 1 == |Ents(d, v.parent.addr)| && RightEdge(d, v.parent)
  }

  lemma {:induction false} EdgeFilesWell(c: Caps, d: Disk, v: View, l: nat)
    requires CapsOk(c) && RightEdge(d, v)
    ensures !MisfilesAbove(c, d, v, l)
    decreases v
  {
    if v.Child? {
      EdgeFilesWell(c, d, v.parent, l + 1);
    }
  }

  lemma {:induction false} EdgeFollowed(c: Caps, t: Tree, key: int, v: View, l: nat, p: nat)
    requires Ready(c, t, 0) && Ordered(t) && AtTop(t, key)
    requires l < |t.levels| && p + 1 == |t.levels[l]| && v.addr == t.levels[l][p] && RightEdge(t.disk, v)
    ensures RightEdge(t.disk, LeafView(t.disk, v, l, key))
    ensures LeafOf(t, l, p, key) + 1 == |t.levels[0]|
    ensures LeafView(t.disk, v, l, key).addr == t.levels[0][|t.levels[0]| - 1]
    decreases l
  {
    hide Flat, Shape, Blocks, BlocksOk, AtTop, Ordered;
    if l > 0 {
      LastChildTaken(c, t, key, l, p);
      var es := Ents(t.disk, v.addr);
      var i := |es| - 1;
      UpperReady(c, t, l - 1);
      ChildOfRow(c, t, l, p, i);
      EdgeFollowed(c, t, key, Child(es[i].rec, v, i), l - 1, Before(t, l, p) + i);
    }
  }

  /** A key that is not below any stored one is never misplaced, and one above all of them goes to the very end. */
  lemma TopKeyFits(c: Caps, t: Tree, key: int)
    requires Ready(c, t, 0) && Ordered(t) && AtTop(t, key)
    ensures !Misplaces(c, t, key)
    ensures (forall e :: e in Row(t, 0) ==> e.key < key) ==>
              var p := Target(t, key);
              LeafPosition(t, p, LeafIndex(LeafEnts(t, p), key)) == |Row(t, 0)|
  {
    hide Flat, Shape, Blocks, BlocksOk, OrderedUp, LeavesOk, LeafIndex;
    TopView(c, t);
    EdgeFollowed(c, t, key, Top(t.root), |t.levels| - 1, 0);
    var p := Target(t, key);
    EntryInRow(t, 0, p);
    var es := LeafEnts(t, p);
    forall i | 0 <= i < |es| ensures es[i] in Row(t, 0) {
      assert Row(t, 0)[Before(t, 0, p) + i] == es[i];
    }
    assert Sorted(es) by { LeafSorted(t, p); }
    TopIndex(es, key);
    EdgeFilesWell(c, t.disk, LeafView(t.disk, Top(t.root), |t.levels| - 1, key), 0);
  }

  lemma LeafSorted(t: Tree, p: nat)
    requires Ordered(t) && t.levels != [] && p < |t.levels[0]|
    ensures Sorted(LeafEnts(t, p))
  {
    assert LeafOk(t, p);
  }

  lemma TopIndex(es: seq<Entry>, key: int)
    requires Sorted(es) && forall i :: 0 <= i < |es| ==> es[i].key <= key
    ensures LeafIndex(es, key) >= |es| - 1
    ensures (forall i :: 0 <= i < |es| ==> es[i].key < key) ==> LeafIndex(es, key) == |es|
  {
    var i := CeilFrom(es, key, 0);
    forall j | i < j < |es| ensures es[j].key == key {
      assert es[i].key <= es[j].key;
    }
  }
}
