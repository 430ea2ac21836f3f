/** The Bm+tree container and its nodes' operations, working on a disk of blocks and a pool of free ones. */
module BmTreeContainer {
  import opened BmTreeModel
  import opened BmTreeShape
  import opened BmTreeBlocks
  import opened BmTreeLocate
  import opened BmTreeConsumers
  import opened BmTreeSubtree
  import I = BmTreeInsertLemmas
  import O = BmTreeOrder
  import S = BmTreeSearch
  import R = BmTreeRemoveLemmas
  import D = BmTreeOrderRemove
  import N = BmTreeCounts
  import W = BmTreeLeaves
  import X = BmTreeNodes

  class BmTree {
    const caps: Caps
    var disk: Disk
    var root: Address
    /** The stack of free blocks. */
    var pool: seq<Address>
    ghost var levels: seq<seq<Address>>

    ghost function Now(): Tree
      reads this
    {
      Tree(disk, levels, root, pool)
    }

    ghost predicate Valid()
      reads this
    {
      Ready(caps, Now(), 0)
    }

    method Alloc() returns (st: Status, a: Address)
      modifies this`pool
      ensures st == if old(pool) == [] then NoSpace else OK
      ensures st == OK ==> a == old(pool)[|old(pool)| - 1] && pool == old(pool)[..|old(pool)| - 1]
      ensures st != OK ==> pool == old(pool)
    {
      if pool == [] { return NoSpace, 0; }
      a := pool[|pool| - 1];
      pool := pool[..|pool| - 1];
      st := OK;
    }

    // ---- Insertion ----

    method InsertDirectAt(v: View, e: Entry, idx: nat, ghost l: nat, ghost p: nat) returns (st: Status)
      requires Ready(caps, Now(), l) && ViewAt(disk, levels, v, l, p)
      requires idx <= |Ents(disk, v.addr)|
      modifies this
      ensures pool <= old(pool) && N.Takes(st, old(N.Splits(caps, disk, v, l)), |old(pool)|, |pool|)
      ensures I.Inserted(st, caps, old(Now()), Now(), l, old(Before(Now(), l, p)) + idx, e)
      ensures O.Kept(st, caps, old(Now()), v, l, p, idx, Now(), e.key)
      ensures st == OK && l == 0 ==> W.LeafPlaced(caps, old(Now()), Now(), p, idx, e)
      ensures if st == OK then X.GrownTo(caps, old(Now()), l, p, idx, e, Now())
              else X.StuntedTo(caps, old(Now()), l, p, Now()) && (old(pool) == [] ==> Now() == old(Now()))
      decreases |levels| - l, 3
    {
      hide I.Inserted, O.Kept, W.LeafPlaced, X.GrownTo, X.StuntedTo, Shape, Blocks;
      NodeFacts(caps, Now(), l, p);
      if |disk[v.addr].entries| >= Cap(caps, disk[v.addr].level) {
        st := Split(v, e, idx, l, p);
      } else {
        I.Placed(caps, Now(), l, p, idx, e);
        O.PlacedKept(caps, Now(), v, l, p, idx, e);
        X.PlaceGrows(caps, Now(), l, p, idx, e);
        if l == 0 { W.PlacedInLeaf(caps, Now(), p, idx, e); }
        Place(v.addr, e, idx, l, p);
        st := OK;
      }
    }

    /** The part of an insertion that shifts a buffer with room for one more entry. */
    method Place(a: Address, e: Entry, idx: nat, ghost l: nat, ghost p: nat)
      requires IsNode(Now(), l, p) && levels[l][p] == a && idx <= |disk[a].entries|
      modifies this`disk
      ensures Now() == I.Placing(old(Now()), l, p, idx, e)
    {
      var node := disk[a];
      disk := disk[a := node.(entries := node.entries[..idx] + [e] + node.entries[idx..])];
    }

    method Split(v: View, e: Entry, idx: nat, ghost l: nat, ghost p: nat) returns (st: Status)
      requires Ready(caps, Now(), l) && ViewAt(disk, levels, v, l, p)
      requires idx <= |Ents(disk, v.addr)| == Cap(caps, l)
      modifies this
      ensures pool <= old(pool) && N.Takes(st, old(N.Splits(caps, disk, v, l)), |old(pool)|, |pool|)
      ensures I.Inserted(st, caps, old(Now()), Now(), l, old(Before(Now(), l, p)) + idx, e)
      ensures O.Kept(st, caps, old(Now()), v, l, p, idx, Now(), e.key)
      ensures st == OK && l == 0 ==> W.LeafPlaced(caps, old(Now()), Now(), p, idx, e)
      ensures if st == OK then X.GrownTo(caps, old(Now()), l, p, idx, e, Now())
              else X.StuntedTo(caps, old(Now()), l, p, Now()) && (old(pool) == [] ==> Now() == old(Now()))
      decreases |levels| - l, 2
    {
      hide I.Inserted, O.Kept, O.HalvedKept, W.LeafPlaced, X.GrownTo, X.HalvedTo, X.StuntedTo, N.Splits, Shape, Before,
           Blocks, BlocksOk;
      var numLeft := |disk[v.addr].entries| / 2;
      var sib, newRoot;
      st, sib, newRoot := Halve(v, l, p);
      if st != OK {
        I.SplitFailed(st, caps, old(Now()), Now().(root := newRoot), l, p, sib, old(Before(Now(), l, p)) + idx, e);
        O.NothingKept(st, caps, old(Now()), v, l, p, idx, e.key);
        return;
      }
      I.SplitPlaced(caps, old(Now()), Now().(root := newRoot), l, p, sib, e, idx);
      O.SplitKept(caps, old(Now()), v, l, p, Now().(root := newRoot), sib, idx, e);
      X.PendingGrows(caps, old(Now()), Now().(root := newRoot), l, p, sib, idx, e);
      if l == 0 { W.SplitInLeaf(caps, old(Now()), v, p, Now().(root := newRoot), sib, idx, e); }
      if idx <= numLeft {
        Place(sib, e, idx, l, p);
      } else {
        Place(v.addr, e, idx - numLeft, l, p + 1);
      }
      root := newRoot;
    }

    /** The part of a split that comes before the pending entry is placed. */
    method Halve(v: View, ghost l: nat, ghost p: nat) returns (st: Status, sib: Address, newRoot: Address)
      requires Ready(caps, Now(), l) && ViewAt(disk, levels, v, l, p)
      requires |Ents(disk, v.addr)| == Cap(caps, l)
      modifies this
      ensures pool <= old(pool) && N.Takes(st, old(N.Splits(caps, disk, v, l)), |old(pool)|, |pool|)
      ensures I.Split(st, caps, old(Now()), Now().(root := newRoot), l, p, sib)
      ensures O.HalvedKept(st, caps, old(Now()), v, l, p, Now().(root := newRoot), sib)
      ensures if st == OK then X.HalvedTo(caps, old(Now()), l, p, Now().(root := newRoot))
              else X.StuntedTo(caps, old(Now()), l, p, Now()) && (old(pool) == [] ==> Now() == old(Now()))
      decreases |levels| - l, 1
    {
      hide I.Inserted, I.Split, O.Kept, O.HalvedKept, X.HalvedTo, X.StuntedTo, N.Splits, Shape, LevelOk, RowOk, Blocks,
           BlocksOk, Flat;
      ghost var t := Now();
      NodeFacts(caps, t, l, p);
      N.FullTakesSome(caps, disk, v, l);
      if pool != [] { N.SplitsAbove(caps, t, v, l, p); }
      var node := disk[v.addr];
      var numLeft := |node.entries| / 2;
      var sep := node.entries[numLeft - 1].key;

      st, sib := Alloc();
      newRoot := root;
      if st != OK {
        I.SplitNeedsBlock(caps, t, l, p);
        O.NothingKept(st, caps, t, v, l, p, 0, 0);
        X.NothingStunted(caps, t, l, p);
        return;
      }
      disk := disk[sib := Block(node.level, node.entries[..numLeft], node.prev)];
      disk := disk[v.addr := Block(node.level, node.entries[numLeft..], sib)];
      levels := levels[l := InsertAt(levels[l], p, sib)];
      assert Now() == I.Halving(t, l, p);

      match v {
        case Child(_, _, _) =>
          st := GrowParent(v, Entry(sep, sib), t, l, p);
          newRoot := root;
        case Top(_) =>
          st, newRoot := Crown(v, Entry(sep, sib), t, l);
      }
      if st != OK {
        ghost var t1 := Now().(root := newRoot);
        Free(sib);
        levels := t.levels;
        I.FailedAnyway(st, caps, t, t1, Now().(root := newRoot), l, p, sib);
        O.NothingKept(st, caps, t, v, l, p, 0, 0);
      }
    }

    /** A root that was halved gets a root above its two halves. */
    method Crown(v: View, e: Entry, ghost t: Tree, ghost l: nat) returns (st: Status, newRoot: Address)
      requires I.CanHalve(caps, t, l, 0) && v.Top? && l == |t.levels| - 1 && v.addr == t.levels[l][0]
      requires Now() == I.Halving(t, l, 0) && e == Entry(O.MidKey(t, l, 0), t.pool[|t.pool| - 1])
      modifies this
      ensures pool <= old(pool) && N.Takes(st, 1, |old(pool)|, |pool|)
      ensures I.Split(st, caps, t, Now().(root := newRoot), l, 0, e.rec)
      ensures O.HalvedKept(st, caps, t, v, l, 0, Now().(root := newRoot), e.rec)
      ensures if st == OK then X.HalvedTo(caps, t, l, 0, Now().(root := newRoot))
              else X.StuntedTo(caps, t, l, 0, X.Undone(t, Now(), e.rec)) && pool + [e.rec] == t.pool
    {
      hide I.Inserted, I.Split, O.Kept, O.HalvedKept, X.HalvedTo, X.StuntedTo, Shape, Blocks, BlocksOk, Flat;
      NodeFacts(caps, t, l, 0);
      st, newRoot := Alloc();
      if st != OK {
        newRoot := root;
        I.SplitNeedsBlock(caps, t, l, 0);
        O.NothingKept(st, caps, t, v, l, 0, 0, 0);
        X.RootStunted(caps, t, l);
        return;
      }
      disk := disk[newRoot := Block(disk[v.addr].level + 1, [e, Entry(0, v.addr)], 0)];
      levels := levels + [[newRoot]];
      I.SplitOfRoot(caps, t, l, e.key);
      O.HalvedRoot(caps, t, v, l);
      X.RootHalves(caps, t, v, l);
    }

    /** The parent of a node that was halved takes in its new left sibling. */
    method GrowParent(v: View, e: Entry, ghost t: Tree, ghost l: nat, ghost p: nat) returns (st: Status)
      requires I.CanHalve(caps, t, l, p) && v.Child? && ViewAt(t.disk, t.levels, v, l, p)
      requires Now() == I.Halving(t, l, p) && e == Entry(O.MidKey(t, l, p), t.pool[|t.pool| - 1])
      modifies this
      ensures pool <= old(pool) && N.Takes(st, old(N.Splits(caps, disk, v.parent, l + 1)), |old(pool)|, |pool|)
      ensures I.Split(st, caps, t, Now(), l, p, e.rec)
      ensures O.HalvedKept(st, caps, t, v, l, p, Now(), e.rec)
      ensures if st == OK then X.HalvedTo(caps, t, l, p, Now())
              else X.StuntedTo(caps, t, l, p, X.Undone(t, Now(), e.rec)) && pool + [e.rec] == t.pool
      decreases |levels| - l, 0
    {
      hide I.Inserted, I.Split, O.Kept, O.HalvedKept, X.GrownTo, X.HalvedTo, X.StuntedTo, Shape, Blocks, BlocksOk;
      I.HalvingReady(caps, t, l, p);
      I.HalvingFrame(caps, t, l, p);
      ghost var q := ParentView(caps, t.disk, t.levels, root, disk, levels, v, l, p);
      st := InsertDirectAt(v.parent, e, v.index, l + 1, q);
      I.SplitUnderParent(st, caps, t, Now(), l, p, e.key);
      O.HalvedUnderParent(st, caps, t, v, l, p, q, Now());
      X.HalvedGrows(st, caps, t, v, l, p, q, Now());
      if st != OK { X.ParentStunted(caps, t, v, l, p, q, Now()); }
    }

    // ---- Removal ----

    method Free(a: Address)
      modifies this`pool
      ensures pool == old(pool) + [a]
    {
      pool := pool + [a];
    }

    method RemoveDirect(v: View, idx: nat, ghost l: nat, ghost p: nat) returns (st: Status)
      requires Ready(caps, Now(), l) && ViewAt(disk, levels, v, l, p)
      requires idx < |Ents(disk, v.addr)|
      modifies this
      ensures old(pool) <= pool && |pool| == |old(pool)| + old(N.Frees(caps, disk, v, l))
      ensures l == 0 && old(W.Spare(caps, Now(), p)) ==> W.LeafTaken(old(Now()), Now(), p, idx)
      ensures X.TrimmedTo(caps, old(Now()), l, p, idx, Now())
      ensures R.Shrunk(st, caps, old(Now()), Now(), l, old(R.RowWithout(Now(), l, p, idx)))
      ensures D.KeptDown(old(Now()), l, p, idx, Now())
      decreases |levels| - l, 2
    {
      hide D.KeptDown, R.Shrunk, W.LeafTaken, X.TrimmedTo, Shape, Blocks, BlocksOk, R.RowWithout;
      ghost var t := Now();
      NodeFacts(caps, t, l, p);
      var node := disk[v.addr];

      if node.level > 0 && v.Top? && |node.entries| == 2 {
        Free(v.addr);
        root := node.entries[1 - idx].rec;
        levels := levels[..l];
        R.Collapsed(caps, t, l, idx);
        X.CollapseTrims(caps, t, l, idx);
        D.CollapseKept(t, l, p, idx, Now());
        return OK;
      }

      disk := disk[v.addr := node.(entries := node.entries[..idx] + node.entries[idx + 1..])];
      var size := |node.entries| - 1;
      if size >= Cap(caps, node.level) / 2 || v.Top? {
        R.Dropped(caps, t, l, p, idx);
        D.DropKept(caps, t, l, p, idx);
        X.DropTrims(caps, t, l, p, idx);
        if l == 0 { W.DroppedInLeaf(caps, t, p, idx); }
        return OK;
      }
      st := Refill(v, t, l, p, idx);
    }

    /** A node that is no longer full enough turns to a sibling. */
    method Refill(v: View, ghost t: Tree, ghost l: nat, ghost p: nat, ghost idx: nat) returns (st: Status)
      requires R.Drained(caps, t, l, p, idx) && Now() == R.Dropping(t, l, p, idx)
      requires v.Child? && ViewAt(t.disk, t.levels, v, l, p)
      modifies this
      ensures old(pool) <= pool && |pool| == |old(pool)| + N.Frees(caps, t.disk, v, l)
      ensures X.TrimmedTo(caps, t, l, p, idx, Now())
      ensures R.Shrunk(st, caps, t, Now(), l, R.RowWithout(t, l, p, idx))
      ensures D.KeptDown(t, l, p, idx, Now())
      decreases |levels| - l, 1
    {
      hide D.KeptDown, R.Shrunk, X.TrimmedTo, Shape, Blocks, BlocksOk, R.RowWithout, N.Frees;
      ghost var pq := R.ParentOfDrained(caps, t, l, p, idx, v);
      var parent := disk[v.parent.addr];

      if v.index > 0 {
        var left := parent.entries[v.index - 1].rec;
        R.LeftOfDrained(caps, t, l, p, idx, v, pq);
        N.FreesOfStarved(caps, t, l, p, idx, v, p - 1, pq);
        st := Adopt(v.parent, left, v.addr, v.index - 1, t, l, p, idx, p - 1, pq);
        if st != CantAdopt { return; }
        AbductHighest(v.parent, left, v.addr, v.index - 1, t, l, p, idx, p - 1, pq);
        return OK;
      }

      if v.index < |parent.entries| - 1 {
        var right := parent.entries[v.index + 1].rec;
        R.RightOfDrained(caps, t, l, p, idx, v, pq);
        N.FreesOfStarved(caps, t, l, p, idx, v, p, pq);
        st := Adopt(v.parent, v.addr, right, v.index, t, l, p, idx, p, pq);
        if st != CantAdopt { return; }
        AbductLowest(v.parent, v.addr, right, v.index, t, l, p, idx, pq);
        return OK;
      }

      // Unable to keep the node size reasonable: a parent with a single child.
      assert false;
      st := Internal;
    }

    /** The node `right` takes over everything from its left neighbour, if that fits. */
    method Adopt(parent: View, left: Address, right: Address, leftIndex: nat,
                 ghost t: Tree, ghost l: nat, ghost p: nat, ghost idx: nat, ghost q: nat, ghost pq: nat)
      returns (st: Status)
      requires R.Starved(caps, t, l, p, idx, q) && Now() == R.Dropping(t, l, p, idx)
      requires levels[l][q] == left && levels[l][q + 1] == right
      requires ParentAt(t.disk, t.levels, parent, leftIndex, l, q, pq) && leftIndex + 1 < |Ents(t.disk, parent.addr)|
      requires p == q ==> leftIndex == 0
      modifies this
      ensures st == CantAdopt <==> |Node(t, l, q).entries| + |Node(t, l, q + 1).entries| > Cap(caps, l) + 1
      ensures st == CantAdopt ==>
        Now() == old(Now()) && |Ents(disk, left)| + |Ents(disk, right)| > Cap(caps, l)
      ensures st != CantAdopt ==>
        old(pool) <= pool && |pool| == |old(pool)| + 1 + N.Frees(caps, t.disk, parent, l + 1)
      ensures st != CantAdopt ==> X.TrimmedTo(caps, t, l, p, idx, Now())
      ensures st != CantAdopt ==>
        R.Shrunk(st, caps, t, Now(), l, R.RowWithout(t, l, p, idx)) && D.KeptDown(t, l, p, idx, Now())
      decreases |levels| - l, 0
    {
      hide D.KeptDown, R.Shrunk, R.RowWithout, R.Starved, X.TrimmedTo, Ready, Blocks, ParentAt, N.Frees;
      R.StarvedFacts(caps, t, l, p, idx, q);
      var adoptee, node := disk[left], disk[right];
      if |node.entries| + |adoptee.entries| > Cap(caps, node.level) {
        return CantAdopt;
      }
      disk := disk[right := Block(node.level, adoptee.entries + node.entries, adoptee.prev)];
      levels := levels[l := RemoveAt(levels[l], q)];
      ghost var t1 := R.Joining(R.Dropping(t, l, p, idx), l, q);
      D.JoiningStarts(caps, t, l, p, idx, q, parent, leftIndex, pq);
      N.FreesAbove(caps, t, l, p, idx, q, parent, leftIndex, pq);
      // The pool takes every block back, so this cannot fail.
      st := RemoveDirect(parent, leftIndex, l + 1, pq);
      D.JoiningEnds(st, caps, t, Now(), l, p, idx, q, parent, leftIndex, pq);
      R.JoinedBelow(st, caps, t1, Now(), l, R.RowWithout(t1, l + 1, pq, leftIndex));
      X.JoiningTrims(caps, t, Now(), l, p, idx, q, parent, leftIndex, pq);
      PrefixPush(old(pool), pool, left);
      Free(left);
    }

    /** The node `right` takes the highest entry of its left neighbour. */
    method AbductHighest(parent: View, left: Address, right: Address, leftIndex: nat,
                         ghost t: Tree, ghost l: nat, ghost p: nat, ghost idx: nat, ghost q: nat, ghost pq: nat)
      requires p == q + 1 && R.Starved(caps, t, l, p, idx, q) && Now() == R.Dropping(t, l, p, idx)
      requires levels[l][q] == left && levels[l][p] == right
      requires ParentAt(t.disk, t.levels, parent, leftIndex, l, q, pq) && leftIndex + 1 < |Ents(t.disk, parent.addr)|
      requires |Ents(disk, left)| + |Ents(disk, right)| > Cap(caps, l)
      modifies this`disk
      ensures X.TrimmedTo(caps, t, l, p, idx, Now())
      ensures R.Shrunk(OK, caps, t, Now(), l, R.RowWithout(t, l, p, idx))
      ensures D.KeptDown(t, l, p, idx, Now())
    {
      hide D.KeptDown, R.Shrunk, R.RowWithout, R.Starved, X.TrimmedTo, ParentAt, Ready;
      R.StarvedFacts(caps, t, l, p, idx, q);
      X.HighestTrims(caps, t, l, p, idx, q, parent, leftIndex, pq);
      var node, this_ := disk[left], disk[right];
      var rest := |node.entries| - 1;
      disk := disk[left := node.(entries := node.entries[..rest])];
      disk := disk[right := this_.(entries := [node.entries[rest]] + this_.entries)];
      var up := disk[parent.addr];
      var key := node.entries[rest - 1].key;
      disk := disk[parent.addr := up.(entries := up.entries[leftIndex := Entry(key, up.entries[leftIndex].rec)])];
    }

    /** The node `left` takes the lowest entry of its right neighbour. */
    method AbductLowest(parent: View, left: Address, right: Address, leftIndex: nat,
                        ghost t: Tree, ghost l: nat, ghost p: nat, ghost idx: nat, ghost pq: nat)
      requires R.Starved(caps, t, l, p, idx, p) && Now() == R.Dropping(t, l, p, idx)
      requires levels[l][p] == left && levels[l][p + 1] == right
      requires ParentAt(t.disk, t.levels, parent, leftIndex, l, p, pq) && leftIndex + 1 < |Ents(t.disk, parent.addr)|
      requires leftIndex == 0
      requires |Ents(disk, left)| + |Ents(disk, right)| > Cap(caps, l)
      modifies this`disk
      ensures X.TrimmedTo(caps, t, l, p, idx, Now())
      ensures R.Shrunk(OK, caps, t, Now(), l, R.RowWithout(t, l, p, idx))
      ensures D.KeptDown(t, l, p, idx, Now())
    {
      hide D.KeptDown, R.Shrunk, R.RowWithout, R.Starved, X.TrimmedTo, ParentAt, Ready;
      R.StarvedFacts(caps, t, l, p, idx, p);
      X.LowestTrims(caps, t, l, p, idx, parent, pq);
      var node, this_ := disk[right], disk[left];
      disk := disk[left := this_.(entries := this_.entries + [node.entries[0]])];
      disk := disk[right := node.(entries := node.entries[1..])];
      var up := disk[parent.addr];
      var key := node.entries[0].key;
      disk := disk[parent.addr := up.(entries := up.entries[leftIndex := Entry(key, up.entries[leftIndex].rec)])];
    }

    // ---- The container's own operations ----

    ghost function Contents(): seq<Entry>
      reads this
      requires levels != []
    {
      Row(Now(), 0)
    }

    /** Every block of the tree and its pool. */
    ghost function Owned(): multiset<Address>
      reads this
    {
      Blocks(pool, levels)
    }

    constructor (caps: Caps, pool: seq<Address>)
      ensures this.caps == caps && this.pool == pool && levels == []
    {
      this.caps, this.pool := caps, pool;
      disk, root, levels := map[], 0, [];
    }

    /** An empty leaf in a block of its own becomes the root. */
    method Init() returns (st: Status)
      requires levels == [] && CapsOk(caps) && BlocksOk(Owned())
      modifies this
      ensures st == if old(pool) == [] then NoSpace else OK
      ensures st == OK ==> Valid() && |levels| == 1 && Contents() == [] && Owned() == old(Owned()) && O.Ordered(Now())
      ensures st == OK ==> root == old(pool)[|old(pool)| - 1] && pool == old(pool)[..|old(pool)| - 1]
      ensures st == OK ==> disk == old(disk)[root := Block(0, [], 0)]
      ensures st != OK ==> Now() == old(Now())
    {
      if pool != [] {
        TopIsFree(pool, levels);
        TakeAsRow(pool, levels);
      }
      var a;
      st, a := Alloc();
      if st != OK { return; }
      disk := disk[a := Block(0, [], 0)];
      root := a;
      levels := [[a]];
      assert [] + [[a]] == levels;
      FlatOne(disk, a);
      assert NodeOk(caps, disk, levels[0], 0, true, 0);
      assert LevelOk(caps, disk, levels, 0);
    }

    method Insert(key: int, value: int) returns (st: Status, ghost at: nat)
      requires Valid()
      modifies this
      ensures st == OK || st == NoSpace
      ensures pool <= old(pool) && N.Takes(st, old(N.Taken(caps, Now(), key)), |old(pool)|, |pool|)
      ensures |old(pool)| > |old(levels)| ==> st == OK
      ensures st == OK ==>
        && old(Target(Now(), key)) < |old(levels[0])|
        && W.LeafPlaced(caps, old(Now()), Now(), old(Target(Now(), key)),
                        LeafIndex(old(LeafEnts(Now(), Target(Now(), key))), key), Entry(key, value))
      ensures st == OK ==>
        X.GrownTo(caps, old(Now()), 0, old(Target(Now(), key)),
                  LeafIndex(old(LeafEnts(Now(), Target(Now(), key))), key), Entry(key, value), Now())
      ensures st != OK ==>
        X.StuntedTo(caps, old(Now()), 0, old(Target(Now(), key)), Now()) && (old(pool) == [] ==> Now() == old(Now()))
      ensures st == OK ==>
        && Valid() && Owned() == old(Owned())
        && at <= |old(Contents())| && Contents() == InsertAt(old(Contents()), at, Entry(key, value))
      ensures st == OK ==>
        at == old(var p := Target(Now(), key); LeafPosition(Now(), p, LeafIndex(LeafEnts(Now(), p), key)))
      ensures st == OK && old(O.Ordered(Now())) ==>
        && (O.Ordered(Now()) <==> !old(O.Misplaces(caps, Now(), key)))
        && O.Leaning(Now()) && (old(O.MisplacesAbove(caps, Now(), key)) ==> O.MisfiledFrom(Now(), 1))
    {
      hide Shape, BlocksOk, O.Ordered, O.MisfilesBelow, O.SplitsBadly, O.Leaning, W.LeafPlaced, X.GrownTo, X.StuntedTo,
           LeafEnts, LeafIndex, LeafOf, LeafPosition;
      TopView(caps, Now());
      st, at := InsertNode(Top(root), key, value, |levels| - 1, 0);
    }

    method InsertNode(v: View, key: int, value: int, ghost l: nat, ghost p: nat) returns (st: Status, ghost at: nat)
      requires Valid() && ViewAt(disk, levels, v, l, p)
      modifies this
      ensures pool <= old(pool)
      ensures N.Takes(st, old(N.Splits(caps, disk, O.LeafView(disk, v, l, key), 0)), |old(pool)|, |pool|)
      ensures st == OK ==>
        && old(LeafOf(Now(), l, p, key)) < |old(levels[0])|
        && W.LeafPlaced(caps, old(Now()), Now(), old(LeafOf(Now(), l, p, key)),
                     LeafIndex(old(LeafEnts(Now(), LeafOf(Now(), l, p, key))), key), Entry(key, value))
      ensures st == OK ==>
        X.GrownTo(caps, old(Now()), 0, old(LeafOf(Now(), l, p, key)),
                  LeafIndex(old(LeafEnts(Now(), LeafOf(Now(), l, p, key))), key), Entry(key, value), Now())
      ensures st != OK ==>
        && X.StuntedTo(caps, old(Now()), 0, old(LeafOf(Now(), l, p, key)), Now())
        && (old(pool) == [] ==> Now() == old(Now()))
      ensures I.Inserted(st, caps, old(Now()), Now(), 0, at, Entry(key, value))
      ensures st == OK ==>
        at == old(var q := LeafOf(Now(), l, p, key); LeafPosition(Now(), q, LeafIndex(LeafEnts(Now(), q), key)))
      ensures O.KeptBelow(st, caps, old(Now()), v, l, p, key, Now())
      decreases l
    {
      hide LeafOf, LeafIndex, I.Inserted, O.Kept, O.KeptBelow, W.LeafPlaced, X.GrownTo, X.StuntedTo, N.Splits, Shape,
           LevelOk, Flat, Blocks, BlocksOk;
      ghost var t := Now();
      UpperReady(caps, t, l);
      NodeFacts(caps, t, l, p);
      LeafOfStep(t, l, p, key);
      var node := disk[v.addr];
      var e := Entry(key, value);
      if node.entries == [] {
        at := Before(t, l, p);
        I.Placed(caps, t, l, p, 0, e);
        O.KeptFirst(caps, t, v, p, e);
        W.PlacedInLeaf(caps, t, p, 0, e);
        X.PlaceGrows(caps, t, l, p, 0, e);
        N.RoomTakesNothing(caps, disk, v, l);
        disk := disk[v.addr := node.(entries := [e])];
        assert InsertAt(node.entries, 0, e) == [e];
        return OK, at;
      }
      if node.level > 0 {
        var idx := Locate(node.entries, key);
        ghost var q := ChildView(caps, t, v, l, p, idx);
        st, at := InsertNode(Child(node.entries[idx].rec, v, idx), key, value, l - 1, q);
        O.KeptThroughChild(st, caps, t, v, l, p, key, Now());
      } else {
        var found, idx := LocateInLeaf(node.entries, key);
        at := Before(t, 0, p) + idx;
        st := InsertDirectAt(v, e, idx, 0, p);
        O.KeptAtLeaf(st, caps, t, v, p, key, Now());
      }
    }

    method Remove(key: int, strict: bool) returns (st: Status, value: int, ghost at: nat)
      requires Valid()
      modifies this
      ensures old(pool) <= pool
      ensures st == OK ==> |pool| == |old(pool)| + old(N.Released(caps, Now(), key))
      ensures st == OK ==> old(Target(Now(), key)) < |old(levels[0])|
      ensures st == OK && old(W.Spare(caps, Now(), Target(Now(), key))) ==>
        W.LeafTaken(old(Now()), Now(), old(Target(Now(), key)),
                    old(TakeIndex(LeafEnts(Now(), Target(Now(), key)), key, strict)))
      ensures st == OK ==>
        X.TrimmedTo(caps, old(Now()), 0, old(Target(Now(), key)),
                    old(TakeIndex(LeafEnts(Now(), Target(Now(), key)), key, strict)), Now())
      ensures st == OK || st == NotFound
      ensures st == NotFound ==> Now() == old(Now())
      ensures st == OK ==>
        && Valid() && Owned() == old(Owned())
        && at < |old(Contents())| && Contents() == RemoveAt(old(Contents()), at)
        && var e := old(Contents())[at];
           value == e.rec && if strict then e.key == key else e.key >= key
      ensures st == OK <==> old(Holds(Now(), Target(Now(), key), key, strict))
      ensures st == OK ==>
        at == old(var p := Target(Now(), key); LeafPosition(Now(), p, TakeIndex(LeafEnts(Now(), p), key, strict)))
      ensures old(O.Ordered(Now())) ==> O.Ordered(Now())
    {
      hide X.TrimmedTo;
      TopView(caps, Now());
      st, value, at := RemoveNode(Top(root), key, strict, |levels| - 1, 0);
    }

    method RemoveNode(v: View, key: int, strict: bool, ghost l: nat, ghost p: nat)
      returns (st: Status, value: int, ghost at: nat)
      requires Valid() && ViewAt(disk, levels, v, l, p)
      modifies this
      ensures old(pool) <= pool
      ensures st == OK ==> |pool| == |old(pool)| + old(N.Frees(caps, disk, O.LeafView(disk, v, l, key), 0))
      ensures st == OK ==> old(LeafOf(Now(), l, p, key)) < |old(levels[0])|
      ensures st == OK && old(W.Spare(caps, Now(), LeafOf(Now(), l, p, key))) ==>
        W.LeafTaken(old(Now()), Now(), old(LeafOf(Now(), l, p, key)),
                    old(TakeIndex(LeafEnts(Now(), LeafOf(Now(), l, p, key)), key, strict)))
      ensures st == OK ==>
        X.TrimmedTo(caps, old(Now()), 0, old(LeafOf(Now(), l, p, key)),
                    old(TakeIndex(LeafEnts(Now(), LeafOf(Now(), l, p, key)), key, strict)), Now())
      ensures st == NotFound ==> Now() == old(Now())
      ensures st == NotFound || R.Took(st, caps, old(Now()), Now(), at, key, strict, value)
      ensures st == OK <==> old(Holds(Now(), LeafOf(Now(), l, p, key), key, strict))
      ensures st == OK ==>
        at == old(var q := LeafOf(Now(), l, p, key); LeafPosition(Now(), q, TakeIndex(LeafEnts(Now(), q), key, strict)))
      ensures D.KeptRemoved(old(Now()), Now())
      decreases l
    {
      hide LeafOf, R.Took, R.Shrunk, R.RowWithout, D.KeptDown, O.Ordered, W.LeafTaken, X.TrimmedTo, Shape, Blocks,
           BlocksOk, Flat;
      ghost var t := Now();
      value, at := 0, 0;
      UpperReady(caps, t, l);
      NodeFacts(caps, t, l, p);
      LeafOfStep(t, l, p, key);
      var node := disk[v.addr];
      if node.entries == [] { return NotFound, 0, 0; }
      if |node.entries| == 1 {
        var first := node.entries[0];
        if !strict && key > first.key { return NotFound, 0, 0; }
        if strict && key != first.key { return NotFound, 0, 0; }
        value := first.rec;
        disk := disk[v.addr := node.(entries := [])];
        at := Before(t, 0, p);
        R.Dropped(caps, t, 0, p, 0);
        assert RemoveAt(node.entries, 0) == [];
        R.TookFrom(OK, caps, t, Now(), p, 0, key, strict);
        D.DropKept(caps, t, 0, p, 0);
        D.KeptAtLeaf(t, p, 0, Now());
        W.DroppedInLeaf(caps, t, p, 0);
        X.DropTrims(caps, t, 0, p, 0);
        return OK, value, at;
      }
      if node.level > 0 {
        var idx := Locate(node.entries, key);
        ghost var q := ChildView(caps, t, v, l, p, idx);
        st, value, at := RemoveNode(Child(node.entries[idx].rec, v, idx), key, strict, l - 1, q);
        return;
      }
      st, value, at := RemoveFromLeaf(v, key, strict, p);
    }

    /** The end of a removal: an entry of a leaf with more than one goes. */
    method RemoveFromLeaf(v: View, key: int, strict: bool, ghost p: nat)
      returns (st: Status, value: int, ghost at: nat)
      requires Valid() && ViewAt(disk, levels, v, 0, p) && Ents(disk, v.addr) != []
      modifies this
      ensures old(pool) <= pool && (st == OK ==> |pool| == |old(pool)| + old(N.Frees(caps, disk, v, 0)))
      ensures st == OK && old(W.Spare(caps, Now(), p)) ==>
        W.LeafTaken(old(Now()), Now(), p, old(TakeIndex(LeafEnts(Now(), p), key, strict)))
      ensures st == OK ==> X.TrimmedTo(caps, old(Now()), 0, p, old(TakeIndex(LeafEnts(Now(), p), key, strict)), Now())
      ensures st == NotFound ==> Now() == old(Now())
      ensures st == NotFound || R.Took(st, caps, old(Now()), Now(), at, key, strict, value)
      ensures st == OK <==> old(Holds(Now(), p, key, strict))
      ensures st == OK ==> at == old(LeafPosition(Now(), p, TakeIndex(LeafEnts(Now(), p), key, strict)))
      ensures D.KeptRemoved(old(Now()), Now())
    {
      hide R.Took, R.Shrunk, R.RowWithout, D.KeptDown, D.KeptRemoved, O.Ordered, W.LeafTaken, X.TrimmedTo, Shape,
           Blocks, BlocksOk, Flat;
      ghost var t := Now();
      NodeFacts(caps, t, 0, p);
      D.NothingRemoved(t);
      var node := disk[v.addr];
      var idx;
      if strict {
        st, idx := LocateInLeafStrict(node.entries, key);
      } else {
        st, idx := LocateInLeaf(node.entries, key);
      }
      if st != OK { return NotFound, 0, 0; }
      value := node.entries[idx].rec;
      at := Before(t, 0, p) + idx;
      st := RemoveDirect(v, idx, 0, p);
      R.TookFrom(st, caps, t, Now(), p, idx, key, strict);
      R.OnlyOK(st, caps, t, Now(), at, key, strict, value);
      D.KeptAtLeaf(t, p, idx, Now());
    }

    // ---- Searching ----

    method Search(key: int, strict: bool) returns (st: Status, value: int, ghost found: seq<Entry>)
      requires Valid()
      ensures Target(Now(), key) < |levels[0]|
      ensures found == S.FoundFrom(Now(), Target(Now(), key), key, 1, strict).1
      ensures st == if S.FoundFrom(Now(), Target(Now(), key), key, 1, strict).1 == [] then NotFound else OK
      ensures st == OK ==> exists e :: e in Contents() && e.rec == value && (strict ==> e.key == key)
      ensures st == OK ==> found[0] in Contents() && value == found[0].rec && (strict ==> found[0].key == key)
      ensures O.Ordered(Now()) && strict ==> (st == OK <==> exists e :: e in Contents() && e.key == key)
    {
      hide LevelOk, Blocks, BlocksOk, Flat, O.Ordered, S.FoundBack, S.Matching, LeafIndex;
      var values;
      st, values, found := SearchAll(key, 1, strict);
      if found != [] { assert found[0] in multiset(Contents()); }
      if O.Ordered(Now()) && strict {
        S.StrictSearchExact(caps, Now(), key, 1);
        S.MatchingAll(Contents(), key);
      }
      if values == [] { return NotFound, 0, found; }
      value := values[0];
    }

    method SearchAll(key: int, max: nat, strict: bool) returns (st: Status, values: seq<int>, ghost found: seq<Entry>)
      requires Valid()
      ensures Target(Now(), key) < |levels[0]|
      ensures found == S.FoundFrom(Now(), Target(Now(), key), key, max, strict).1
      ensures st == S.FoundFrom(Now(), Target(Now(), key), key, max, strict).0
      ensures values == Recs(S.FoundFrom(Now(), Target(Now(), key), key, max, strict).1)
      ensures |found| <= max && multiset(found) <= multiset(Contents())
      ensures strict ==> forall e :: e in found ==> e.key == key
      ensures O.Ordered(Now()) && strict ==> found == S.AtMost(S.Matching(Contents(), key), max)
    {
      TopView(caps, Now());
      S.TargetInRow(caps, Now(), |levels| - 1, 0, key);
      st, values, found := SearchNode(Top(root), key, max, strict, |levels| - 1, 0);
      S.FoundWhole(caps, Now(), Target(Now(), key), key, max, strict);
      if O.Ordered(Now()) && strict {
        S.StrictSearchExact(caps, Now(), key, max);
      }
    }

    method SearchNode(v: View, key: int, max: nat, strict: bool, ghost l: nat, ghost p: nat)
      returns (st: Status, values: seq<int>, ghost found: seq<Entry>)
      requires Valid() && ViewAt(disk, levels, v, l, p) && LeafOf(Now(), l, p, key) < |levels[0]|
      ensures found == S.FoundFrom(Now(), LeafOf(Now(), l, p, key), key, max, strict).1
      ensures st == S.FoundFrom(Now(), LeafOf(Now(), l, p, key), key, max, strict).0
      ensures values == Recs(S.FoundFrom(Now(), LeafOf(Now(), l, p, key), key, max, strict).1)
      decreases l
    {
      hide LeafOf, Shape, Blocks, BlocksOk, S.FoundBack, Flat, RouteFrom, LeafIndex;
      if max == 0 { return OK, [], []; }
      UpperReady(caps, Now(), l);
      NodeFacts(caps, Now(), l, p);
      LeafOfStep(Now(), l, p, key);
      var node := disk[v.addr];
      if node.entries == [] { return NotFound, [], []; }
      if |node.entries| == 1 {
        var first := node.entries[0];
        if !strict && key > first.key { return NotFound, [], []; }
        if strict && key != first.key { return NotFound, [], []; }
        S.OneEntry(caps, Now(), p, key, max, strict);
        return OK, [first.rec], [first];
      }
      if node.level > 0 {
        var idx := Locate(node.entries, key);
        ghost var q := ChildView(caps, Now(), v, l, p, idx);
        st, values, found := SearchNode(Child(node.entries[idx].rec, v, idx), key, max, strict, l - 1, q);
        return;
      }
      var idx;
      st, idx := LocateInLeaf(node.entries, key);
      if st != OK { return NotFound, [], []; }
      values, found := CopyWhile(v.addr, key, idx, max, strict, p);
    }

    /** Copies values from entry `start` of a leaf backwards, going on in the leaf before it unless that is enough. */
    method CopyWhile(a: Address, key: int, start: nat, max: nat, strict: bool, ghost p: nat)
      returns (values: seq<int>, ghost found: seq<Entry>)
      requires Valid() && p < |levels[0]| && levels[0][p] == a && start < |Ents(disk, a)|
      ensures found == S.FoundBack(disk, levels[0], p, start + 1, key, max, strict)
      ensures values == Recs(S.FoundBack(disk, levels[0], p, start + 1, key, max, strict))
      decreases p
    {
      hide Shape, Blocks, BlocksOk, S.Copied;
      if max == 0 { return [], []; }
      NodeFacts(caps, Now(), 0, p);
      LeafNotNull(caps, Now(), p);
      var node := disk[a];
      values, found := CopyFromLeaf(node, key, start, max, strict);
      if |values| == max || node.prev == 0 { return; }
      NodeFacts(caps, Now(), 0, p - 1);
      var pred := disk[node.prev];
      var more;
      ghost var moreFound;
      more, moreFound := CopyWhile(node.prev, key, |pred.entries| - 1, max - |values|, strict, p - 1);
      S.RecsBoth(found, moreFound);
      values, found := values + more, found + moreFound;
    }

    method CopyFromLeaf(node: Block, key: int, start: nat, max: nat, strict: bool)
      returns (values: seq<int>, ghost found: seq<Entry>)
      requires start < |node.entries| && max > 0
      ensures found == S.Copied(node.entries, key, start + 1, max, strict, node.prev == 0)
      ensures values == Recs(S.Copied(node.entries, key, start + 1, max, strict, node.prev == 0))
    {
      values, found := [], [];
      var i: nat := start;
      ghost var rest: nat := start + 1;
      while S.Wanted(node.entries[i], key, strict, node.prev == 0)
        invariant i <= start && rest == i + 1 && |found| < max && values == Recs(found)
        invariant found + S.Copied(node.entries, key, rest, max - |found|, strict, node.prev == 0)
               == S.Copied(node.entries, key, start + 1, max, strict, node.prev == 0)
        decreases i
      {
        S.RecsBoth(found, [node.entries[i]]);
        found := found + [node.entries[i]];
        values := values + [node.entries[i].rec];
        rest := i;
        if |values| >= max || i == 0 { return; }
        i := i - 1;
      }
    }

    // ---- The whole tree ----

    method GetLastLeaf(a: Address, ghost l: nat) returns (target: Address)
      requires Valid() && l < |levels| && LastOf(levels[l]) == a
      ensures levels[0] != [] && target == LastOf(levels[0])
      decreases l
    {
      LastChild(caps, Now(), l);
      var node := disk[a];
      if node.level == 0 { return a; }
      var last := node.entries[|node.entries| - 1].rec;
      if node.level == 1 { return last; }
      target := GetLastLeaf(last, l - 1);
    }

    method CountValues() returns (count: nat)
      requires Valid()
      ensures count == |Contents()|
    {
      TopView(caps, Now());
      var leaf := GetLastLeaf(root, |levels| - 1);
      count := 0;
      ghost var p: nat := |levels[0]|;
      assert levels[0][..p] == levels[0];
      LeafNotNull(caps, Now(), p);
      while leaf != 0
        invariant p <= |levels[0]| && leaf == (if p == 0 then 0 else levels[0][p - 1]) && (p > 0 ==> leaf != 0)
        invariant count + |Flat(disk, levels[0][..p])| == |Contents()|
        decreases p
      {
        NodeFacts(caps, Now(), 0, p - 1);
        FlatAt(disk, levels[0], p - 1);
        count := count + |disk[leaf].entries|;
        leaf := disk[leaf].prev;
        p := p - 1;
        LeafNotNull(caps, Now(), p);
      }
    }

    /** Hands every entry to a consumer, the last one first, until that ends the walk. */
    method Walk(consumer: Consumer) returns (calls: seq<Entry>, end: End)
      requires Valid() && Patient(consumer)
      ensures Consumed(consumer, Reverse(Contents()), [], calls, end)
    {
      hide Shape, Blocks, BlocksOk, Reverse, Consumed, Patient, ViewAt, Flat;
      TopView(caps, Now());
      var leaf := GetLastLeaf(root, |levels| - 1);
      calls, end := [], Done;
      ghost var p: nat, rest: seq<Entry> := |levels[0]|, [];
      assert levels[0][..p] == levels[0];
      ReverseNone<Entry>();
      ConsumedNone(consumer, []);
      LeafNotNull(caps, Now(), p);
      while leaf != 0
        invariant p <= |levels[0]| && leaf == (if p == 0 then 0 else levels[0][p - 1]) && (p > 0 ==> leaf != 0)
        invariant Contents() == Flat(disk, levels[0][..p]) + rest
        invariant Consumed(consumer, Reverse(rest), [], calls, Done)
        decreases p
      {
        NodeFacts(caps, Now(), 0, p - 1);
        FlatAt(disk, levels[0], p - 1);
        var node := disk[leaf];
        ghost var before := Flat(disk, levels[0][..p - 1]);
        var part;
        part, end := WalkLeaf(node.entries, consumer, calls);
        WalkStep(consumer, before, node.entries, rest, calls, part, end);
        assert Contents() == before + (node.entries + rest);
        calls := calls + part;
        if end != Done { return; }
        rest := node.entries + rest;
        leaf := node.prev;
        p := p - 1;
        LeafNotNull(caps, Now(), p);
      }
      FlatNone(disk);
      assert levels[0][..p] == [] && Contents() == rest;
      end := Done;
    }

    method WalkLeaf(entries: seq<Entry>, consumer: Consumer, before: seq<Entry>)
      returns (calls: seq<Entry>, end: End)
      requires Patient(consumer)
      ensures Consumed(consumer, Reverse(entries), before, calls, end)
    {
      hide Consumed, Patient, Reverse;
      calls, end := [], Done;
      var i: nat := |entries|;
      assert entries[i..] == [];
      ReverseNone<Entry>();
      ConsumedNone(consumer, before);
      while i > 0
        invariant i <= |entries| && Consumed(consumer, Reverse(entries[i..]), before, calls, Done)
      {
        i := i - 1;
        var more, answer := HandOver(consumer, before + calls, entries[i]);
        WalkOne(consumer, entries, i, before, calls, more, EndOf(answer));
        calls := calls + more;
        if answer == Stop { return calls, Stopped; }
        if answer == Fail { return calls, Failed; }
      }
      assert entries[0..] == entries;
    }

    /** The bytes of all nodes, when every node takes `length` of them. */
    method CountUsedSpace(length: nat) returns (size: nat)
      requires Valid()
      ensures size == length * |Bag(levels)|
    {
      hide SegSize, Bag, Shape, Blocks;
      TopView(caps, Now());
      SegAll(caps, Now(), |levels| - 1);
      assert levels[..|levels|] == levels;
      size := CountSpaceBelow(root, length, 0, |levels| - 1, 0);
    }

    method CountSpaceBelow(a: Address, length: nat, size: nat, ghost l: nat, ghost p: nat) returns (total: nat)
      requires Valid() && l < |levels| && p < |levels[l]| && levels[l][p] == a
      ensures total == size + Bytes(length, SegSize(Now(), l, p, p + 1))
      decreases l, 1
    {
      hide SegSize, SegBag, SegRow, Shape, Blocks, Bytes;
      ghost var t := Now();
      UpperReady(caps, t, l);
      NodeFacts(caps, t, l, p);
      var node := disk[a];
      total := size + length;
      if node.level == 0 {
        SegLeaves(caps, t, p, p + 1);
        BytesOf(length, 1);
        return;
      }
      ghost var first := Children(caps, t, l, p);
      BytesSum(length, 1, SegSize(t, l - 1, first, first + |node.entries|));
      BytesOf(length, |node.entries|);
      if node.level == 1 {
        SegLeaves(caps, t, first, first + |node.entries|);
        total := total + |node.entries| * length;
        return;
      }
      total := CountSpaceOfChildren(node.entries, length, total, l, p, first);
    }

    method CountSpaceOfChildren(entries: seq<Entry>, length: nat, size: nat, ghost l: nat, ghost p: nat,
            ghost first: nat)
      returns (total: nat)
      requires Valid() && l < |levels| && p < |levels[l]|
      requires ChildrenFrom(Now(), l, p, first) && entries == Node(Now(), l, p).entries
      ensures total == size + Bytes(length, SegSize(Now(), l - 1, first, first + |entries|))
      decreases l, 0
    {
      hide SegSize, SegBag, SegRow, Shape, Blocks, Bytes;
      ghost var t := Now();
      ghost var done: nat := 0;
      SegEmpty(caps, t, l - 1, first);
      BytesOf(length, 0);
      total := size;
      var i := 0;
      while i < |entries|
        invariant i <= |entries| && done == SegSize(t, l - 1, first, first + i)
        invariant total == size + Bytes(length, done)
      {
        SegStep(caps, t, l - 1, first, first + i);
        ghost var more := SegSize(t, l - 1, first + i, first + i + 1);
        BytesSum(length, done, more);
        total := CountSpaceBelow(entries[i].rec, length, total, l - 1, first + i);
        done := done + more;
        i := i + 1;
      }
    }

    /** Frees every block and hands every entry to a consumer, unless that stops it; its errors make no difference. */
    method Destroy(consumer: Consumer) returns (calls: seq<Entry>, end: End, ghost freed: seq<Address>)
      requires Valid() && Patient(consumer)
      modifies this`pool
      ensures Consumed(Lenient(consumer), old(Contents()), [], calls, end)
      ensures |levels[|levels| - 1]| == 1 && multiset(Subtree(old(Now()), |levels| - 1, 0)) == Bag(levels)
      ensures pool == old(pool) + freed && freed <= Subtree(old(Now()), |levels| - 1, 0)
      ensures if end == Done then freed == Subtree(old(Now()), |levels| - 1, 0)
              else StoppedIn(old(Now()), freed, calls, end)
    {
      hide SegBag, SegRow, Subtree, Bag, Shape, Consumed, Lenient, Patient, StoppedIn;
      TopView(caps, Now());
      SegAll(caps, Now(), |levels| - 1);
      WholeTree(caps, Now());
      calls, end, freed := DestroyBelow(root, consumer, [], Now(), |levels| - 1, 0);
    }

    method DestroyBelow(a: Address, consumer: Consumer, before: seq<Entry>, ghost t: Tree, ghost l: nat, ghost p: nat)
      returns (calls: seq<Entry>, end: End, ghost freed: seq<Address>)
      requires Ready(caps, t, 0) && disk == t.disk && levels == t.levels && Patient(consumer)
      requires l < |t.levels| && p < |t.levels[l]| && t.levels[l][p] == a
      modifies this`pool
      ensures Consumed(Lenient(consumer), SegRow(t, l, p, p + 1), before, calls, end)
      ensures pool == old(pool) + freed && freed <= Subtree(t, l, p)
      ensures if end == Done then freed == Subtree(t, l, p) else StoppedIn(t, freed, calls, end)
      decreases l, 1
    {
      hide SegBag, SegRow, Subtree, Subtrees, Shape, Blocks, Consumed, Lenient, Patient, StoppedIn;
      UpperReady(caps, t, l);
      NodeFacts(caps, t, l, p);
      SubtreeOfNode(caps, t, l, p);
      Free(a);
      freed := [a];
      var node := disk[a];
      if node.level == 0 {
        Leaf(caps, t, p);
        calls, end := DestroyLeaf(node.entries, consumer, before);
        if end != Done { StoppedHere(t, p, calls); }
        return;
      }
      ghost var first := Children(caps, t, l, p);
      ghost var below;
      calls, end, below := DestroyChildren(node.entries, consumer, before, t, l, p, first);
      if end != Done { StoppedLater(t, freed, below, [], calls, end); }
      assert [] + calls == calls;
      freed := freed + below;
    }

    method DestroyLeaf(entries: seq<Entry>, consumer: Consumer, before: seq<Entry>)
      returns (calls: seq<Entry>, end: End)
      requires Patient(consumer)
      ensures Consumed(Lenient(consumer), entries, before, calls, end)
      ensures end == Done || (end == Stopped && calls != [] && calls[|calls| - 1] in entries)
    {
      hide Consumed, Lenient, Patient;
      calls, end := [], Done;
      assert entries[..0] == [];
      ConsumedNone(Lenient(consumer), before);
      var i := 0;
      while i < |entries|
        invariant i <= |entries| && end == Done
        invariant Consumed(Lenient(consumer), entries[..i], before, calls, Done)
      {
        var more, answer := HandOver(consumer, before + calls, entries[i]);
        assert entries[..i + 1] == entries[..i] + [entries[i]];
        end := if answer == Stop then Stopped else Done;
        ConsumedBoth(Lenient(consumer), entries[..i], [entries[i]], before, calls, more, end);
        calls := calls + more;
        if end == Stopped {
          assert entries == entries[..i + 1] + entries[i + 1..];
          ConsumedPart(Lenient(consumer), entries[..i + 1], entries[i + 1..], before, calls, end);
          return;
        }
        i := i + 1;
      }
      assert entries[..i] == entries;
    }

    method DestroyChildren(entries: seq<Entry>, consumer: Consumer, before: seq<Entry>,
            ghost t: Tree, ghost l: nat, ghost p: nat, ghost first: nat)
      returns (calls: seq<Entry>, end: End, ghost freed: seq<Address>)
      requires Ready(caps, t, 0) && disk == t.disk && levels == t.levels && Patient(consumer)
      requires l < |t.levels| && p < |t.levels[l]| && ChildrenFrom(t, l, p, first) && entries == Node(t, l, p).entries
      modifies this`pool
      ensures Consumed(Lenient(consumer), SegRow(t, l - 1, first, first + |entries|), before, calls, end)
      ensures pool == old(pool) + freed && freed <= Subtrees(t, l - 1, first, first + |entries|)
      ensures if end == Done then freed == Subtrees(t, l - 1, first, first + |entries|)
              else StoppedIn(t, freed, calls, end)
      decreases l, 0
    {
      hide SegBag, SegRow, Subtree, Subtrees, Shape, Blocks, Consumed, Lenient, Patient, StoppedIn;
      SegEmpty(caps, t, l - 1, first);
      SubtreesNone(t, l - 1, first);
      calls, end, freed := [], Done, [];
      ConsumedNone(Lenient(consumer), before);
      var i := 0;
      while i < |entries|
        invariant i <= |entries| && end == Done
        invariant Consumed(Lenient(consumer), SegRow(t, l - 1, first, first + i), before, calls, Done)
        invariant pool == old(pool) + freed && freed == Subtrees(t, l - 1, first, first + i)
      {
        SegStep(caps, t, l - 1, first, first + i);
        SubtreesStep(t, l - 1, first, first + i);
        SubtreesPrefix(t, l - 1, first, first + i + 1, first + |entries|);
        var more;
        ghost var blocks;
        more, end, blocks := DestroyBelow(entries[i].rec, consumer, before + calls, t, l - 1, first + i);
        ConsumedBoth(Lenient(consumer), SegRow(t, l - 1, first, first + i),
          SegRow(t, l - 1, first + i, first + i + 1), before, calls, more, end);
        PrefixOn(freed, blocks, Subtree(t, l - 1, first + i), Subtrees(t, l - 1, first, first + |entries|));
        if end != Done { StoppedLater(t, freed, blocks, calls, more, end); }
        calls, freed := calls + more, freed + blocks;
        i := i + 1;
        if end != Done {
          SegJoin(caps, t, l - 1, first, first + i, first + |entries|);
          ConsumedPart(Lenient(consumer), SegRow(t, l - 1, first, first + i),
            SegRow(t, l - 1, first + i, first + |entries|), before, calls, end);
          return;
        }
      }
    }
  }
}
