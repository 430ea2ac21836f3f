/** What an insertion at some level does to the tree, and the steps that establish it. */
module BmTreeInsertLemmas {
  import opened BmTreeModel
  import opened BmTreeShape
  import opened BmTreeBlocks

  /**
   How an insertion of `e` at level `l` ends. If there were blocks for it, entry `at` of the level's in-order
   sequence is now `e` and nothing else moved in it, the levels above are well formed again, the levels below
   were left alone and no block got lost.
   */
  ghost predicate Inserted(st: Status, c: Caps, t: Tree, t': Tree, l: nat, at: nat, e: Entry) {
    match st
    case OK =>
      && l < |t.levels| <= |t'.levels| <= |t.levels| + 1
      && t'.levels[..l] == t.levels[..l]
      && Ready(c, t', l)
      && at <= |Row(t, l)|
      && Row(t', l) == InsertAt(Row(t, l), at, e)
      && (forall k :: 0 <= k < l ==> SameRow(t.disk, t'.disk, t.levels[k]))
      && Blocks(t'.pool, t'.levels) == Blocks(t.pool, t.levels)
    case NoSpace => |t.pool| <= |t.levels| - l
    case _ => false
  }

  // ---- Placing an entry in a node that has room ----

  lemma InsertWithin<T>(pre: seq<T>, s: seq<T>, post: seq<T>, i: nat, x: T)
    requires i <= |s|
    ensures pre + InsertAt(s, i, x) + post == InsertAt(pre + s + post, |pre| + i, x)
  {
    var all := pre + s + post;
    assert all[..|pre| + i] == pre + s[..i] && all[|pre| + i..] == s[i..] + post;
  }

  ghost function Placing(t: Tree, l: nat, p: nat, idx: nat, e: Entry): Tree
    requires IsNode(t, l, p) && idx <= |Node(t, l, p).entries|
  {
    t.(disk := Put(t.disk, t.levels[l][p], InsertAt(Node(t, l, p).entries, idx, e)))
  }

  lemma Placed(c: Caps, t: Tree, l: nat, p: nat, idx: nat, e: Entry)
    requires Ready(c, t, l) && IsNode(t, l, p) && idx <= |Node(t, l, p).entries| < Cap(c, l)
    ensures Inserted(OK, c, t, Placing(t, l, p, idx, e), l, Before(t, l, p) + idx, e)
  {
    hide Flat, Blocks, BlocksOk;
    var d, row := t.disk, t.levels[l];
    assert LevelOk(c, d, t.levels, l) && NodeOk(c, d, row, l, l == |t.levels| - 1, p);
    PutEntries(c, d, t.levels, t.root, l, p, InsertAt(d[row[p]].entries, idx, e));
    PlacedFlat(c, d, row, l, l == |t.levels| - 1, p, e, idx);
    RowsApart(t.pool, t.levels, l, p);
  }

  lemma PlacedFlat(c: Caps, d: Disk, row: seq<Address>, l: nat, top: bool, p: nat, e: Entry, idx: nat)
    requires RowOk(c, d, row, l, top) && p < |row| && row[p] in d && idx <= |d[row[p]].entries|
    ensures |Flat(d, row[..p])| + idx <= |Flat(d, row)|
    ensures Flat(Put(d, row[p], InsertAt(d[row[p]].entries, idx, e)), row)
         == InsertAt(Flat(d, row), |Flat(d, row[..p])| + idx, e)
  {
    var es := d[row[p]].entries;
    FlatAt(d, row, p);
    RowPutFlat(c, d, row, l, top, p, InsertAt(es, idx, e));
    InsertWithin(Flat(d, row[..p]), es, Flat(d, row[p + 1..]), idx, e);
  }

  // ---- Splitting ----

  /** The left half of node `p` is in a new block, the levels above do not know about it yet. */
  ghost function Halving(t: Tree, l: nat, p: nat): Tree
    requires IsNode(t, l, p) && t.pool != []
  {
    var sib := t.pool[|t.pool| - 1];
    Tree(Halved(t.disk, t.levels[l][p], sib), t.levels[l := InsertAt(t.levels[l], p, sib)], t.root,
         t.pool[..|t.pool| - 1])
  }

  ghost predicate CanHalve(c: Caps, t: Tree, l: nat, p: nat) {
    Ready(c, t, l) && t.pool != [] && IsNode(t, l, p) && |Node(t, l, p).entries| == Cap(c, l)
  }

  lemma HalvingRow(c: Caps, t: Tree, l: nat, p: nat)
    requires CanHalve(c, t, l, p)
    ensures var t' := Halving(t, l, p);
            && RowOk(c, t'.disk, t'.levels[l], l, false)
            && Row(t', l) == Row(t, l)
            && Before(t', l, p) == Before(t, l, p)
            && t'.levels[l][p] == t.pool[|t.pool| - 1] && t'.levels[l][p + 1] == t.levels[l][p]
            && t'.levels[l][p] != t'.levels[l][p + 1]
  {
    hide Blocks, BlocksOk, Flat, NodeOk;
    var row, sib := t.levels[l], t.pool[|t.pool| - 1];
    TopIsFree(t.pool, t.levels);
    assert LevelOk(c, t.disk, t.levels, l);
    SplitRow(c, t.disk, row, l, l == |t.levels| - 1, p, sib);
    Distinct(c, t.disk, row, l, l == |t.levels| - 1);
    SplitFlat(t.disk, row, p, sib);
  }

  lemma HalvingBlocks(c: Caps, t: Tree, l: nat, p: nat)
    requires CanHalve(c, t, l, p)
    ensures var t' := Halving(t, l, p); Blocks(t'.pool, t'.levels) == Blocks(t.pool, t.levels)
  {
    TakeIntoRow(t.pool, t.levels, l, p);
  }

  lemma HalvingFrame(c: Caps, t: Tree, l: nat, p: nat)
    requires CanHalve(c, t, l, p)
    ensures forall k :: 0 <= k < |t.levels| && k != l ==> SameRow(t.disk, Halving(t, l, p).disk, t.levels[k])
  {
    TopIsFree(t.pool, t.levels);
    RowsApart(t.pool, t.levels, l, p);
  }

  /** The levels above a split can take in the new sibling. */
  lemma HalvingReady(c: Caps, t: Tree, l: nat, p: nat)
    requires CanHalve(c, t, l, p) && l + 1 < |t.levels|
    ensures Ready(c, Halving(t, l, p), l + 1)
    ensures Recs(Row(Halving(t, l, p), l + 1)) == t.levels[l]
  {
    var t' := Halving(t, l, p);
    HalvingBlocks(c, t, l, p);
    HalvingFrame(c, t, l, p);
    assert LevelOk(c, t.disk, t.levels, l);
    ShapeFrame(c, t.disk, t'.disk, t.levels, t'.levels, t.root, l + 1);
  }

  /**
   How the part of a split before the pending entry is placed ends: node `p` of level `l` is preceded by `sib`,
   which holds its first half, and the tree is well formed from level `l` upwards.
   */
  ghost predicate Split(st: Status, c: Caps, t: Tree, t': Tree, l: nat, p: nat, sib: Address) {
    match st
    case OK =>
      && IsNode(t, l, p) && IsNode(t', l, p) && IsNode(t', l, p + 1)
      && |t.levels| <= |t'.levels| <= |t.levels| + 1
      && t'.levels[..l] == t.levels[..l]
      && t'.levels[l][p] == sib && t'.levels[l][p + 1] == t.levels[l][p]
      && Ready(c, t', l)
      && Row(t', l) == Row(t, l)
      && Before(t', l, p) == Before(t, l, p)
      && (var es := Node(t, l, p).entries; var numLeft := |es| / 2;
          Node(t', l, p).entries == es[..numLeft] && Node(t', l, p + 1).entries == es[numLeft..])
      && (forall k :: 0 <= k < l ==> SameRow(t.disk, t'.disk, t.levels[k]))
      && Blocks(t'.pool, t'.levels) == Blocks(t.pool, t.levels)
    case NoSpace => |t.pool| <= |t.levels| - l
    case _ => false
  }

  lemma InsertRecs(es: seq<Entry>, i: nat, e: Entry)
    requires i <= |es|
    ensures Recs(InsertAt(es, i, e)) == InsertAt(Recs(es), i, e.rec)
  {}

  /** The upper levels kept the halved row as it was and point at it. */
  lemma SplitLinked(c: Caps, t: Tree, t2: Tree, l: nat, p: nat)
    requires CanHalve(c, t, l, p)
    requires var t1 := Halving(t, l, p);
             && l + 1 < |t2.levels| && t2.levels[..l + 1] == t1.levels[..l + 1]
             && (forall k :: 0 <= k <= l ==> SameRow(t1.disk, t2.disk, t1.levels[k]))
             && Ready(c, t2, l + 1)
             && Recs(Row(t2, l + 1)) == t1.levels[l]
    requires Blocks(t2.pool, t2.levels) == Blocks(t.pool, t.levels)
    requires |t.levels| <= |t2.levels| <= |t.levels| + 1
    ensures Split(OK, c, t, t2, l, p, t.pool[|t.pool| - 1])
  {
    hide Flat, NodeOk, RowOk, Blocks, BlocksOk;
    var t1 := Halving(t, l, p);
    HalvingRow(c, t, l, p);
    HalvingFrame(c, t, l, p);
    var row := t1.levels[l];
    assert t2.levels[l] == t2.levels[..l + 1][l] == row;
    assert t2.levels[..l] == t2.levels[..l + 1][..l] == t1.levels[..l + 1][..l] == t.levels[..l];
    RowFrame(c, t1.disk, t2.disk, row, l, false);
    Distinct(c, t1.disk, row, l, false);
    RowPrefixFrame(t1.disk, t2.disk, row, p);
    forall k | l <= k < |t2.levels| ensures LevelOk(c, t2.disk, t2.levels, k) {
      assert k > l ==> LevelOk(c, t2.disk, t2.levels, k);
    }
    forall k | 0 <= k < l ensures SameRow(t.disk, t2.disk, t.levels[k]) {
      SameRowTwice(t.disk, t1.disk, t2.disk, t.levels[k]);
    }
  }

  lemma RowPrefixFrame(d: Disk, d': Disk, row: seq<Address>, p: nat)
    requires p <= |row| && SameRow(d, d', row) && forall x :: 0 <= x < |row| ==> row[x] in d
    ensures Flat(d', row[..p]) == Flat(d, row[..p])
  {
    forall a | a in row[..p] ensures Ents(d', a) == Ents(d, a) {
      var x: nat :| x < p && row[..p][x] == a;
      assert row[x] in d;
    }
    FlatFrame(d, d', row[..p]);
  }

  /** The parent has taken in the new sibling. */
  lemma SplitUnderParent(st: Status, c: Caps, t: Tree, t2: Tree, l: nat, p: nat, sep: int)
    requires CanHalve(c, t, l, p) && l + 1 < |t.levels|
    requires var t1 := Halving(t, l, p); Inserted(st, c, t1, t2, l + 1, p, Entry(sep, t.pool[|t.pool| - 1]))
    ensures Split(st, c, t, t2, l, p, t.pool[|t.pool| - 1])
  {
    HalvingReady(c, t, l, p);
    HalvingBlocks(c, t, l, p);
    if st == OK {
      InsertRecs(Row(Halving(t, l, p), l + 1), p, Entry(sep, t.pool[|t.pool| - 1]));
      SplitLinked(c, t, t2, l, p);
    }
  }

  /** A root above two nodes, in a new block. */
  ghost function Crowning(t: Tree, sep: int, left: Address, right: Address): Tree
    requires t.pool != []
  {
    var top := t.pool[|t.pool| - 1];
    Tree(t.disk[top := Block(|t.levels|, [Entry(sep, left), Entry(0, right)], 0)], t.levels + [[top]], top,
         t.pool[..|t.pool| - 1])
  }

  lemma CrowningReady(c: Caps, t: Tree, sep: int, left: Address, right: Address)
    requires CapsOk(c) && t.levels != [] && t.pool != [] && BlocksOk(Blocks(t.pool, t.levels))
    ensures var t' := Crowning(t, sep, left, right); var l := |t.levels|;
            && Ready(c, t', l) && Recs(Row(t', l)) == [left, right]
            && Blocks(t'.pool, t'.levels) == Blocks(t.pool, t.levels)
  {
    var t', l := Crowning(t, sep, left, right), |t.levels|;
    TopIsFree(t.pool, t.levels);
    TakeAsRow(t.pool, t.levels);
    FlatOne(t'.disk, t'.root);
    assert NodeOk(c, t'.disk, [t'.root], l, true, 0);
    assert LevelOk(c, t'.disk, t'.levels, l);
  }

  lemma CrowningFrame(t: Tree, sep: int, left: Address, right: Address)
    requires t.pool != [] && BlocksOk(Blocks(t.pool, t.levels))
    ensures forall k :: 0 <= k < |t.levels| ==> SameRow(t.disk, Crowning(t, sep, left, right).disk, t.levels[k])
  {
    TopIsFree(t.pool, t.levels);
  }

  /** A root that splits gets a new root above its two halves. */
  lemma SplitOfRoot(c: Caps, t: Tree, l: nat, sep: int)
    requires CanHalve(c, t, l, 0) && l == |t.levels| - 1 && |t.pool| > 1
    ensures Split(OK, c, t, Crowning(Halving(t, l, 0), sep, t.pool[|t.pool| - 1], t.levels[l][0]), l, 0,
                  t.pool[|t.pool| - 1])
  {
    var t1, sib := Halving(t, l, 0), t.pool[|t.pool| - 1];
    var t2 := Crowning(t1, sep, sib, t.levels[l][0]);
    HalvingBlocks(c, t, l, 0);
    NodeFacts(c, t, l, 0);
    assert t1.levels[l] == [sib, t.levels[l][0]];
    CrowningReady(c, t1, sep, sib, t.levels[l][0]);
    CrowningFrame(t1, sep, sib, t.levels[l][0]);
    SplitLinked(c, t, t2, l, 0);
  }

  /** A split cannot run out of blocks as long as there is one for every level it may reach and for a new root. */
  lemma SplitNeedsBlock(c: Caps, t: Tree, l: nat, p: nat)
    requires |t.pool| <= |t.levels| - l
    ensures forall t': Tree, sib: Address :: Split(NoSpace, c, t, t', l, p, sib)
  {}

  /** A failed split says nothing of the tree. */
  lemma FailedAnyway(st: Status, c: Caps, t: Tree, t1: Tree, t2: Tree, l: nat, p: nat, sib: Address)
    requires st != OK && Split(st, c, t, t1, l, p, sib)
    ensures Split(st, c, t, t2, l, p, sib)
  {}

  /** The split tree with the pending entry in the half it belongs to. */
  ghost function PlacingPending(t1: Tree, l: nat, p: nat, idx: nat, numLeft: nat, e: Entry): Tree
    requires IsNode(t1, l, p) && IsNode(t1, l, p + 1)
    requires |Node(t1, l, p).entries| == numLeft && idx <= numLeft + |Node(t1, l, p + 1).entries|
  {
    if idx <= numLeft then Placing(t1, l, p, idx, e) else Placing(t1, l, p + 1, idx - numLeft, e)
  }

  /** Placing the pending entry completes the insertion. */
  lemma SplitPlaced(c: Caps, t: Tree, t1: Tree, l: nat, p: nat, sib: Address, e: Entry, idx: nat)
    requires CapsOk(c) && Split(OK, c, t, t1, l, p, sib)
    requires idx <= |Node(t, l, p).entries| == Cap(c, l)
    ensures Inserted(OK, c, t, PlacingPending(t1, l, p, idx, Cap(c, l) / 2, e), l, Before(t, l, p) + idx, e)
  {
    hide Flat, Shape, Blocks, BlocksOk;
    var numLeft := Cap(c, l) / 2;
    FlatAt(t1.disk, t1.levels[l], p);
    assert Before(t1, l, p + 1) == Before(t, l, p) + numLeft;
    var x := if idx <= numLeft then p else p + 1;
    var i := if idx <= numLeft then idx else idx - numLeft;
    Placed(c, t1, l, x, i, e);
    InsertedAfterSplit(c, t, t1, Placing(t1, l, x, i, e), l, p, sib, Before(t, l, p) + idx, e);
  }

  lemma SplitFailed(st: Status, c: Caps, t: Tree, t1: Tree, l: nat, p: nat, sib: Address, at: nat, e: Entry)
    requires Split(st, c, t, t1, l, p, sib) && st != OK
    ensures forall t2: Tree :: Inserted(st, c, t, t2, l, at, e)
  {}

  lemma InsertedAfterSplit(c: Caps, t: Tree, t1: Tree, t2: Tree, l: nat, p: nat, sib: Address, at: nat, e: Entry)
    requires Split(OK, c, t, t1, l, p, sib) && t2.levels == t1.levels && Inserted(OK, c, t1, t2, l, at, e)
    ensures Inserted(OK, c, t, t2, l, at, e)
  {
    forall k | 0 <= k < l ensures SameRow(t.disk, t2.disk, t.levels[k]) {
      assert t1.levels[k] == t1.levels[..l][k] == t.levels[..l][k];
      SameRowTwice(t.disk, t1.disk, t2.disk, t.levels[k]);
    }
  }
}
