/** How many blocks an insertion takes out of the pool, and how many a removal puts back. */
module BmTreeCounts {
  import opened BmTreeLocate
  import opened BmTreeModel
  import opened BmTreeShape
  import opened BmTreeOrder
  import I = BmTreeInsertLemmas
  import R = BmTreeRemoveLemmas

  /** An entry for the viewed node takes one block for every full node on the way up, and one more for a new root. */
  ghost function Splits(c: Caps, d: Disk, v: View, l: nat): nat
    decreases v
  {
    if |Ents(d, v.addr)| < Cap(c, l) then 0
    else
      match v
      case Top(_) => 2
      case Child(_, parent, _) => 1 + Splits(c, d, parent, l + 1)
  }

  /** The sibling that the child at `index` of a node with entries `es` turns to. */
  function Sibling(es: seq<Entry>, index: nat): Address {
    if 0 < index <= |es| then es[index - 1].rec else if |es| > 1 then es[1].rec else 0
  }

  /**
   Taking an entry out of the viewed node frees one block for every node on the way up that is joined with its sibling,
   and one for a root that is left with a single child.
   */
  ghost function Frees(c: Caps, d: Disk, v: View, l: nat): nat
    decreases v
  {
    var n := |Ents(d, v.addr)|;
    match v
    case Top(_) => if l > 0 && n == 2 then 1 else 0
    case Child(_, parent, index) =>
      if n <= Cap(c, l) / 2 && n + |Ents(d, Sibling(Ents(d, parent.addr), index))| <= Cap(c, l) + 1
      then 1 + Frees(c, d, parent, l + 1) else 0
  }

  /** The blocks that inserting `key` takes. */
  ghost function Taken(c: Caps, t: Tree, key: int): nat {
    if t.levels == [] then 0 else Splits(c, t.disk, LeafView(t.disk, Top(t.root), |t.levels| - 1, key), 0)
  }

  /** The blocks that removing an entry from the leaf of `key` frees. */
  ghost function Released(c: Caps, t: Tree, key: int): nat {
    if t.levels == [] then 0 else Frees(c, t.disk, LeafView(t.disk, Top(t.root), |t.levels| - 1, key), 0)
  }

  /** An insertion that needs `n` blocks succeeds exactly when they are there, and takes just them. */
  ghost predicate Takes(st: Status, n: nat, before: nat, after: nat) {
    if n <= before then st == OK && after == before - n else st != OK
  }

  // ---- Bounds ----

  function Depth(v: View): nat {
    match v
    case Top(_) => 0
    case Child(_, parent, _) => 1 + Depth(parent)
  }

  lemma {:induction false} LeafDepth(d: Disk, v: View, l: nat, key: int)
    ensures Depth(LeafView(d, v, l, key)) <= Depth(v) + l
    decreases l
  {
    var es := Ents(d, v.addr);
    if l > 0 && es != [] {
      var i := RouteFrom(es, key, 0);
      LeafDepth(d, Child(es[i].rec, v, i), l - 1, key);
    }
  }

  lemma {:induction false} FreesBound(c: Caps, d: Disk, v: View, l: nat)
    ensures Frees(c, d, v, l) <= 1 + Depth(v)
    decreases v
  {
    if v.Child? { FreesBound(c, d, v.parent, l + 1); }
  }

  lemma {:induction false} SplitsBound(c: Caps, d: Disk, v: View, l: nat)
    ensures Splits(c, d, v, l) <= 2 + Depth(v)
    decreases v
  {
    if v.Child? { SplitsBound(c, d, v.parent, l + 1); }
  }

  /** Spare blocks make no difference to what an insertion takes. */
  lemma PoolTakes(c: Caps, t: Tree, pool: seq<Address>, key: int)
    ensures Taken(c, t.(pool := pool), key) == Taken(c, t, key)
  {}

  /** A removal frees at most one block on each level, and an insertion takes at most one on each and a root. */
  lemma CountBounds(c: Caps, t: Tree, key: int)
    ensures Released(c, t, key) <= |t.levels| && Taken(c, t, key) <= |t.levels| + 1
  {
    if t.levels != [] {
      var v := LeafView(t.disk, Top(t.root), |t.levels| - 1, key);
      LeafDepth(t.disk, Top(t.root), |t.levels| - 1, key);
      FreesBound(c, t.disk, v, 0);
      SplitsBound(c, t.disk, v, 0);
    }
  }

  // ---- Insertion ----

  lemma FullTakesSome(c: Caps, d: Disk, v: View, l: nat)
    requires |Ents(d, v.addr)| >= Cap(c, l)
    ensures Splits(c, d, v, l) > 0
  {}

  lemma RoomTakesNothing(c: Caps, d: Disk, v: View, l: nat)
    requires |Ents(d, v.addr)| < Cap(c, l)
    ensures Splits(c, d, v, l) == 0
  {}

  lemma {:induction false} SplitsFrame(c: Caps, t: Tree, t': Tree, v: View, l: nat, p: nat)
    requires ViewAt(t.disk, t.levels, v, l, p)
    requires forall k, x :: l <= k < |t.levels| && 0 <= x < |t.levels[k]| ==>
               Ents(t'.disk, t.levels[k][x]) == Ents(t.disk, t.levels[k][x])
    ensures Splits(c, t'.disk, v, l) == Splits(c, t.disk, v, l)
    decreases v
  {
    if v.Child? {
      var q: nat :| ParentAt(t.disk, t.levels, v.parent, v.index, l, p, q);
      SplitsFrame(c, t, t', v.parent, l + 1, q);
    }
  }

  /** What is left to take once a node was halved. */
  lemma SplitsAbove(c: Caps, t: Tree, v: View, l: nat, p: nat)
    requires I.CanHalve(c, t, l, p) && ViewAt(t.disk, t.levels, v, l, p)
    ensures v.Child? ==> Splits(c, t.disk, v, l) == 1 + Splits(c, I.Halving(t, l, p).disk, v.parent, l + 1)
    ensures v.Top? ==> Splits(c, t.disk, v, l) == 2
  {
    hide Blocks, BlocksOk, Shape;
    if v.Child? {
      UpperSame(c, t, l, p);
      var q: nat :| ParentAt(t.disk, t.levels, v.parent, v.index, l, p, q);
      SplitsFrame(c, t, I.Halving(t, l, p), v.parent, l + 1, q);
    }
  }

  // ---- Removal ----

  lemma ReadyAbove(c: Caps, t: Tree, l: nat)
    requires Ready(c, t, l) && l + 1 < |t.levels|
    ensures Ready(c, t, l + 1)
  {}

  lemma SiblingInRow(c: Caps, t: Tree, v: View, l: nat, p: nat, q: nat)
    requires Ready(c, t, l) && v.Child? && l + 1 < |t.levels| && p < |t.levels[l]|
    requires ParentAt(t.disk, t.levels, v.parent, v.index, l, p, q) && |Ents(t.disk, v.parent.addr)| >= 2
    ensures Sibling(Ents(t.disk, v.parent.addr), v.index) in t.levels[l]
  {
    assert LevelOk(c, t.disk, t.levels, l);
    var es := Ents(t.disk, v.parent.addr);
    var i := if v.index > 0 then v.index - 1 else 1;
    ChildOf(c, t, l, q, i);
  }

  lemma {:induction false} FreesFrame(c: Caps, t: Tree, t': Tree, v: View, l: nat, p: nat)
    requires Ready(c, t, l) && ViewAt(t.disk, t.levels, v, l, p)
    requires forall k, x :: l <= k < |t.levels| && 0 <= x < |t.levels[k]| ==>
               Ents(t'.disk, t.levels[k][x]) == Ents(t.disk, t.levels[k][x])
    ensures Frees(c, t'.disk, v, l) == Frees(c, t.disk, v, l)
    decreases v
  {
    hide Blocks, BlocksOk, Shape, Flat;
    if v.Child? {
      var q: nat :| ParentAt(t.disk, t.levels, v.parent, v.index, l, p, q);
      ReadyAbove(c, t, l);
      NodeFacts(c, t, l + 1, q);
      assert ViewAt(t.disk, t.levels, v.parent, l + 1, q);
      SiblingInRow(c, t, v, l, p, q);
      FreesFrame(c, t, t', v.parent, l + 1, q);
    }
  }

  /** Joining two nodes leaves all nodes above as they were. */
  lemma FreesAbove(c: Caps, t: Tree, l: nat, p: nat, idx: nat, q: nat, parent: View, i: nat, pq: nat)
    requires R.Starved(c, t, l, p, idx, q) && R.Neighbours(R.Dropping(t, l, p, idx), l, q)
    requires ParentAt(t.disk, t.levels, parent, i, l, q, pq)
    ensures Frees(c, R.Joining(R.Dropping(t, l, p, idx), l, q).disk, parent, l + 1) == Frees(c, t.disk, parent, l + 1)
  {
    hide Blocks, BlocksOk, Flat, LevelOk, Frees;
    var t1 := R.Joining(R.Dropping(t, l, p, idx), l, q);
    R.JoiningFrame(c, t, l, p, idx, q);
    ReadyAbove(c, t, l);
    forall k, x | l + 1 <= k < |t.levels| && 0 <= x < |t.levels[k]|
      ensures Ents(t1.disk, t.levels[k][x]) == Ents(t.disk, t.levels[k][x]) {
      InDisk(c, t, l + 1, k, x);
      assert SameRow(t.disk, t1.disk, t.levels[k]);
    }
    assert ViewAt(t.disk, t.levels, parent, l + 1, pq);
    FreesFrame(c, t, t1, parent, l + 1, pq);
  }

  lemma InDisk(c: Caps, t: Tree, l: nat, k: nat, x: nat)
    requires Ready(c, t, l) && l <= k < |t.levels| && x < |t.levels[k]|
    ensures t.levels[k][x] in t.disk
  {
    assert LevelOk(c, t.disk, t.levels, k) && NodeOk(c, t.disk, t.levels[k], k, k == |t.levels| - 1, x);
  }

  /** What the starved node frees depends on whether it fits into one node with its sibling. */
  lemma FreesOfStarved(c: Caps, t: Tree, l: nat, p: nat, idx: nat, v: View, q: nat, pq: nat)
    requires R.Starved(c, t, l, p, idx, q) && v.Child? && v.addr == t.levels[l][p]
    requires ParentAt(t.disk, t.levels, v.parent, v.index, l, p, pq) && |Ents(t.disk, v.parent.addr)| >= 2
    requires q == if v.index > 0 then p - 1 else p
    requires t.levels[l][if v.index > 0 then q else q + 1] == Sibling(Ents(t.disk, v.parent.addr), v.index)
    ensures Frees(c, t.disk, v, l) ==
            if |Node(t, l, q).entries| + |Node(t, l, q + 1).entries| <= Cap(c, l) + 1
            then 1 + Frees(c, t.disk, v.parent, l + 1) else 0
  {
    hide Blocks, BlocksOk, Flat, Shape;
  }
}
