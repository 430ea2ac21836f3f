/** A removal keeps the order of keys. */
module BmTreeOrderRemove {
  import opened BmTreeModel
  import opened BmTreeShape
  import opened BmTreeOrder
  import R = BmTreeRemoveLemmas

  /** Removing entry `idx` of node `p` keeps the order from level `l` upwards; in an inner node it is not the last. */
  ghost predicate KeptDown(t: Tree, l: nat, p: nat, idx: nat, t': Tree) {
    IsNode(t, l, p) ==>
      if l > 0 then OrderedUp(t, l) && idx < |Node(t, l, p).entries| - 1 ==> OrderedUp(t', l)
      else Ordered(t) ==> Ordered(t')
  }

  // ---- Keys ----

  lemma SepsRemove(row: seq<Entry>, at: nat)
    requires SortedSeps(row) && at < |row| - 1
    ensures SortedSeps(RemoveAt(row, at))
  {}

  lemma SortedRemove(es: seq<Entry>, i: nat)
    requires Sorted(es) && i < |es|
    ensures Sorted(RemoveAt(es, i))
  {}

  // ---- A node that can spare the entry ----

  lemma DropFrame(c: Caps, t: Tree, l: nat, p: nat, idx: nat)
    requires Ready(c, t, l) && IsNode(t, l, p) && idx < |Node(t, l, p).entries|
    ensures var t' := R.Dropping(t, l, p, idx);
      && (forall k, x :: l < k < |t.levels| && 0 <= x < |t.levels[k]| ==>
            Ents(t'.disk, t.levels[k][x]) == Ents(t.disk, t.levels[k][x]))
      && (forall k :: l < k < |t.levels| ==> Row(t', k) == Row(t, k))
      && (forall x :: 0 <= x < |t.levels[l]| && x != p ==>
            Ents(t'.disk, t.levels[l][x]) == Ents(t.disk, t.levels[l][x]))
      && Ents(t'.disk, t.levels[l][p]) == RemoveAt(Node(t, l, p).entries, idx)
  {
    hide Blocks, BlocksOk;
    var t', es := R.Dropping(t, l, p, idx), RemoveAt(Node(t, l, p).entries, idx);
    forall k, x | l < k < |t.levels| && 0 <= x < |t.levels[k]|
      ensures Ents(t'.disk, t.levels[k][x]) == Ents(t.disk, t.levels[k][x]) {
      LevelsApart(c, t.disk, t.levels, t.root, l, k, x, l, p);
    }
    forall k | l < k < |t.levels| ensures Row(t', k) == Row(t, k) {
      PutFrame(c, t.disk, t.levels, t.root, l, p, es, k);
    }
    assert LevelOk(c, t.disk, t.levels, l);
    Distinct(c, t.disk, t.levels[l], l, l == |t.levels| - 1);
  }

  lemma DropKept(c: Caps, t: Tree, l: nat, p: nat, idx: nat)
    requires Ready(c, t, l) && IsNode(t, l, p) && idx < |Node(t, l, p).entries|
    ensures KeptDown(t, l, p, idx, R.Dropping(t, l, p, idx))
  {
    hide Blocks, BlocksOk, Shape, OrderedAt, LeafOk;
    var t' := R.Dropping(t, l, p, idx);
    DropFrame(c, t, l, p, idx);
    if l > 0 {
      if OrderedUp(t, l) && idx < |Node(t, l, p).entries| - 1 {
        forall k | l <= k < |t.levels| ensures OrderedAt(t', k) {
          assert OrderedAt(t, k);
          if k > l { OrderedFrame(t, t', k); } else { DropKeptInner(c, t, l, p, idx); }
        }
      }
    } else if Ordered(t) {
      forall k | 1 <= k < |t.levels| ensures OrderedAt(t', k) {
        assert OrderedAt(t, k);
        OrderedFrame(t, t', k);
      }
      forall x | 0 <= x < |t.levels[0]| ensures LeafOk(t', x) {
        assert LeafOk(t, x);
        DropKeptLeaf(c, t, p, idx, x);
      }
    }
  }

  lemma SameLast(es: seq<Entry>, idx: nat)
    requires idx < |es| - 1
    ensures LastKey(RemoveAt(es, idx)) == LastKey(es)
  {}

  lemma DropRow(c: Caps, t: Tree, l: nat, p: nat, idx: nat)
    requires Ready(c, t, l) && IsNode(t, l, p) && idx < |Node(t, l, p).entries|
    ensures Before(t, l, p) + idx < |Row(t, l)|
    ensures Row(R.Dropping(t, l, p, idx), l) == RemoveAt(Row(t, l), Before(t, l, p) + idx)
  {
    hide Blocks, BlocksOk, RowOk, Flat, RemoveAt, Put;
    EntryInRow(t, l, p);
    assert LevelOk(c, t.disk, t.levels, l);
    RowPutFlat(c, t.disk, t.levels[l], l, l == |t.levels| - 1, p, RemoveAt(Node(t, l, p).entries, idx));
    R.RowWithoutSplit(t, l, p, idx);
  }

  lemma DropKeptInner(c: Caps, t: Tree, l: nat, p: nat, idx: nat)
    requires Ready(c, t, l) && IsNode(t, l, p) && idx < |Node(t, l, p).entries| - 1 && l > 0 && OrderedAt(t, l)
    ensures OrderedAt(R.Dropping(t, l, p, idx), l)
  {
    hide Blocks, BlocksOk, Shape, RemoveAt;
    var t' := R.Dropping(t, l, p, idx);
    DropFrame(c, t, l, p, idx);
    EntryInRow(t, l, p);
    DropRow(c, t, l, p, idx);
    SepsRemove(Row(t, l), Before(t, l, p) + idx);
    SameLast(Node(t, l, p).entries, idx);
    forall q | 0 <= q < |t.levels[l]| - 1 ensures EndsAtSep(t', l, q) {
      assert EndsAtSep(t, l, q);
    }
  }

  lemma DropKeptLeaf(c: Caps, t: Tree, p: nat, idx: nat, x: nat)
    requires Ready(c, t, 0) && IsNode(t, 0, p) && idx < |Node(t, 0, p).entries|
    requires x < |t.levels[0]| && LeafOk(t, x)
    ensures LeafOk(R.Dropping(t, 0, p, idx), x)
  {
    hide Blocks, BlocksOk, Shape;
    DropFrame(c, t, 0, p, idx);
    if x == p {
      SortedRemove(Node(t, 0, p).entries, idx);
    }
  }

  // ---- Joining ----

  /** Nodes `q` and `q + 1` of level `l` became one, and the level above dropped the entry of `q`. */
  ghost predicate JoinedAt(t: Tree, t3: Tree, l: nat, q: nat, es: seq<Entry>) {
    && l + 1 < |t.levels| && l < |t3.levels| && q + 1 < |t.levels[l]|
    && t3.levels[l] == RemoveAt(t.levels[l], q)
    && |Row(t, l + 1)| == |t.levels[l]|
    && (forall x :: 0 <= x < |t.levels[l]| && x != q && x != q + 1 ==>
          Ents(t3.disk, t.levels[l][x]) == Ents(t.disk, t.levels[l][x]))
    && Ents(t3.disk, t.levels[l][q + 1]) == es
    && (if l + 1 < |t3.levels| then Row(t3, l + 1) == RemoveAt(Row(t, l + 1), q) else |t.levels[l]| == 2)
  }

  lemma JoinedSep(t: Tree, t3: Tree, l: nat, q: nat, es: seq<Entry>, x: nat)
    requires JoinedAt(t, t3, l, q, es) && x < |t3.levels[l]| - 1
    ensures Sep(t3, l, x) == Sep(t, l, if x < q then x else x + 1)
  {}

  lemma JoinedNode(t: Tree, t3: Tree, l: nat, q: nat, es: seq<Entry>, x: nat)
    requires JoinedAt(t, t3, l, q, es) && x < |t3.levels[l]|
    ensures Ents(t3.disk, t3.levels[l][x]) ==
            if x == q then es else Ents(t.disk, t.levels[l][if x < q then x else x + 1])
  {
    var was := if x < q then x else x + 1;
    assert t3.levels[l][x] == t.levels[l][was];
  }

  lemma InnerJoin(t: Tree, t3: Tree, l: nat, q: nat, es: seq<Entry>, at: nat)
    requires l > 0 && JoinedAt(t, t3, l, q, es) && OrderedAt(t, l)
    requires LastKey(es) == LastKey(Ents(t.disk, t.levels[l][q + 1]))
    requires at < |Row(t, l)| - 1 && Row(t3, l) == RemoveAt(Row(t, l), at)
    ensures OrderedAt(t3, l)
  {
    SepsRemove(Row(t, l), at);
    forall x | 0 <= x < |t3.levels[l]| - 1 ensures EndsAtSep(t3, l, x) {
      JoinedSep(t, t3, l, q, es, x);
      JoinedNode(t, t3, l, q, es, x);
      assert EndsAtSep(t, l, if x < q then x else x + 1);
    }
  }

  /** The entries that a leaf and its right neighbour have left between them. */
  ghost predicate LeavesLeft(t: Tree, q: nat, es: seq<Entry>)
    requires t.levels != [] && q + 1 < |t.levels[0]|
  {
    && Sorted(es)
    && (q > 0 ==> forall i :: 0 <= i < |es| ==> Sep(t, 0, q - 1) <= es[i].key)
    && (q + 1 < |t.levels[0]| - 1 ==> forall i :: 0 <= i < |es| ==> es[i].key <= Sep(t, 0, q + 1))
  }

  lemma LeafJoin(t: Tree, t3: Tree, q: nat, es: seq<Entry>)
    requires JoinedAt(t, t3, 0, q, es) && LeavesOk(t) && LeavesLeft(t, q, es)
    ensures LeavesOk(t3)
  {
    forall x | 0 <= x < |t3.levels[0]| ensures LeafOk(t3, x) {
      LeafJoinAt(t, t3, q, es, x);
    }
  }

  lemma LeafJoinAt(t: Tree, t3: Tree, q: nat, es: seq<Entry>, x: nat)
    requires JoinedAt(t, t3, 0, q, es) && LeavesOk(t) && LeavesLeft(t, q, es) && x < |t3.levels[0]|
    ensures LeafOk(t3, x)
  {
    hide JoinedAt;
    JoinedLength(t, t3, 0, q, es);
    JoinedNode(t, t3, 0, q, es, x);
    if x > 0 { JoinedSep(t, t3, 0, q, es, x - 1); }
    if x < |t3.levels[0]| - 1 { JoinedSep(t, t3, 0, q, es, x); }
    if x < q {
      assert LeafOk(t, x);
    } else if x > q {
      assert LeafOk(t, x + 1);
    }
  }

  lemma JoinedLength(t: Tree, t3: Tree, l: nat, q: nat, es: seq<Entry>)
    requires JoinedAt(t, t3, l, q, es)
    ensures l < |t.levels| && l < |t3.levels|
    ensures |t3.levels[l]| == |t.levels[l]| - 1 && q < |t3.levels[l]|
  {}

  /** Two neighbouring leaves in a row are sorted together. */
  lemma NeighboursLeft(c: Caps, t: Tree, p: nat, idx: nat, q: nat)
    requires R.Starved(c, t, 0, p, idx, q) && Ordered(t)
    ensures CloseLeaves(t, p, idx, q)
    ensures var t0 := R.Dropping(t, 0, p, idx);
            LeavesLeft(t, q, Node(t0, 0, q).entries + Node(t0, 0, q + 1).entries)
  {
    hide LevelOk, Flat, Blocks, BlocksOk, OrderedAt, Sep, Sorted, RemoveAt, R.Dropping;
    R.StarvedNeighbours(c, t, 0, p, idx, q);
    LeavesAround(t, q);
    SepsInOrder(c, t, q);
    var a, b := Node(t, 0, q).entries, Node(t, 0, q + 1).entries;
    var es := RemoveAt(Node(t, 0, p).entries, idx);
    SortedRemove(Node(t, 0, p).entries, idx);
    RemovedFrom(Node(t, 0, p).entries, idx);
    if p == q {
      JoinSorted(es, b, Sep(t, 0, q));
    } else {
      JoinSorted(a, es, Sep(t, 0, q));
    }
  }

  ghost predicate CloseLeaves(t: Tree, p: nat, idx: nat, q: nat) {
    IsNode(t, 0, p) && idx < |Node(t, 0, p).entries| && R.Neighbours(R.Dropping(t, 0, p, idx), 0, q)
  }

  lemma LeavesAround(t: Tree, q: nat)
    requires Ordered(t) && q + 1 < |t.levels[0]| && 1 < |t.levels|
    ensures LeafOk(t, q) && LeafOk(t, q + 1) && OrderedAt(t, 1)
  {}

  lemma RemovedFrom(es: seq<Entry>, idx: nat)
    requires idx < |es|
    ensures forall i :: 0 <= i < |RemoveAt(es, idx)| ==> RemoveAt(es, idx)[i] in es
  {}

  lemma SepsInOrder(c: Caps, t: Tree, q: nat)
    requires Ready(c, t, 0) && 1 < |t.levels| && q + 1 < |t.levels[0]| && OrderedAt(t, 1)
    ensures q > 0 ==> Sep(t, 0, q - 1) <= Sep(t, 0, q)
    ensures q + 1 < |t.levels[0]| - 1 ==> Sep(t, 0, q) <= Sep(t, 0, q + 1)
  {
    RowLength(c, t, 1);
  }

  lemma JoinSorted(a: seq<Entry>, b: seq<Entry>, mid: int)
    requires Sorted(a) && Sorted(b)
    requires (forall i :: 0 <= i < |a| ==> a[i].key <= mid) && (forall i :: 0 <= i < |b| ==> mid <= b[i].key)
    ensures Sorted(a + b)
  {}

  /** What became of the tree once the parent dropped the adopted node and its block was freed. */
  lemma JoinedTree(c: Caps, t: Tree, t2: Tree, l: nat, p: nat, idx: nat, q: nat) returns (t3: Tree)
    requires R.Starved(c, t, l, p, idx, q) && R.Neighbours(R.Dropping(t, l, p, idx), l, q)
    requires |Node(t, l, q).entries| + |Node(t, l, q + 1).entries| <= Cap(c, l) + 1 && q < |Row(t, l + 1)|
    requires R.Shrunk(OK, c, R.Joining(R.Dropping(t, l, p, idx), l, q), t2, l + 1, RemoveAt(Row(t, l + 1), q))
    ensures t3 == t2.(pool := t2.pool + [t.levels[l][q]])
    ensures var t0 := R.Dropping(t, l, p, idx);
            JoinedAt(t, t3, l, q, Node(t0, l, q).entries + Node(t0, l, q + 1).entries)
    ensures Row(t3, l) == R.RowWithout(t, l, p, idx)
  {
    hide RowOk, LevelOk, NodeOk, Blocks, BlocksOk;
    t3 := t2.(pool := t2.pool + [t.levels[l][q]]);
    R.JoinedDone(c, t, t2, l, p, idx, q);
    R.JoiningFrame(c, t, l, p, idx, q);
    var t1 := R.Joining(R.Dropping(t, l, p, idx), l, q);
    assert t2.levels[l] == t2.levels[..l + 1][l] == t1.levels[..l + 1][l];
    assert |Recs(Row(t, l + 1))| == |t.levels[l]|;
    assert SameRow(t1.disk, t2.disk, t1.levels[l]);
    JoinedNodes(c, t, t2, l, p, idx, q);
    if l + 1 == |t2.levels| {
      assert |Recs(RemoveAt(Row(t, l + 1), q))| == 1;
    }
  }

  lemma JoinedNodes(c: Caps, t: Tree, t2: Tree, l: nat, p: nat, idx: nat, q: nat)
    requires R.Starved(c, t, l, p, idx, q) && R.Neighbours(R.Dropping(t, l, p, idx), l, q)
    requires |Node(t, l, q).entries| + |Node(t, l, q + 1).entries| <= Cap(c, l) + 1
    requires var t1 := R.Joining(R.Dropping(t, l, p, idx), l, q); SameRow(t1.disk, t2.disk, t1.levels[l])
    ensures forall x :: 0 <= x < |t.levels[l]| && x != q && x != q + 1 ==>
              Ents(t2.disk, t.levels[l][x]) == Ents(t.disk, t.levels[l][x])
    ensures var t0 := R.Dropping(t, l, p, idx);
            Ents(t2.disk, t.levels[l][q + 1]) == Node(t0, l, q).entries + Node(t0, l, q + 1).entries
  {
    hide Blocks, BlocksOk;
    var row := t.levels[l];
    var t1 := R.Joining(R.Dropping(t, l, p, idx), l, q);
    assert LevelOk(c, t.disk, t.levels, l);
    Distinct(c, t.disk, row, l, false);
    forall x | 0 <= x < |row| && x != q ensures row[x] in t1.disk && Ents(t2.disk, row[x]) == Ents(t1.disk, row[x]) {
      var y := if x < q then x else x - 1;
      assert t1.levels[l][y] == row[x];
    }
  }

  /** The upper levels of the tree in which two nodes were joined. */
  lemma JoiningOrdered(c: Caps, t: Tree, l: nat, p: nat, idx: nat, q: nat)
    requires R.Starved(c, t, l, p, idx, q) && OrderedUp(t, l + 1)
    ensures R.Neighbours(R.Dropping(t, l, p, idx), l, q)
    ensures OrderedUp(R.Joining(R.Dropping(t, l, p, idx), l, q), l + 1)
  {
    hide Blocks, BlocksOk;
    R.JoiningFrame(c, t, l, p, idx, q);
    var t1 := R.Joining(R.Dropping(t, l, p, idx), l, q);
    forall k | l < k < |t.levels|
      ensures Row(t1, k) == Row(t, k)
      ensures forall x :: 0 <= x < |t.levels[k]| ==> Ents(t1.disk, t.levels[k][x]) == Ents(t.disk, t.levels[k][x]) {
      assert LevelOk(c, t.disk, t.levels, k);
      RowFrame(c, t.disk, t1.disk, t.levels[k], k, k == |t.levels| - 1);
      Distinct(c, t.disk, t.levels[k], k, k == |t.levels| - 1);
    }
    forall k | l + 1 <= k < |t.levels| ensures OrderedAt(t1, k) {
      assert OrderedAt(t, k);
      OrderedFrame(t, t1, k);
    }
  }

  lemma JoinedKept(c: Caps, t: Tree, t2: Tree, l: nat, p: nat, idx: nat, q: nat, pq: nat, i: nat)
    requires R.Starved(c, t, l, p, idx, q) && R.Neighbours(R.Dropping(t, l, p, idx), l, q)
    requires |Node(t, l, q).entries| + |Node(t, l, q + 1).entries| <= Cap(c, l) + 1 && q < |Row(t, l + 1)|
    requires R.Shrunk(OK, c, R.Joining(R.Dropping(t, l, p, idx), l, q), t2, l + 1, RemoveAt(Row(t, l + 1), q))
    requires var t1 := R.Joining(R.Dropping(t, l, p, idx), l, q);
             && IsNode(t1, l + 1, pq) && i < |Node(t1, l + 1, pq).entries| - 1
             && KeptDown(t1, l + 1, pq, i, t2)
    ensures KeptDown(t, l, p, idx, t2.(pool := t2.pool + [t.levels[l][q]]))
  {
    hide RowOk, LevelOk, NodeOk, Blocks, BlocksOk, JoinedAt, OrderedAt, LeafOk, R.Shrunk, Shape;
    var t3 := JoinedTree(c, t, t2, l, p, idx, q);
    var t0 := R.Dropping(t, l, p, idx);
    var es := Node(t0, l, q).entries + Node(t0, l, q + 1).entries;
    JoinedLength(t, t3, l, q, es);
    DropRow(c, t, l, p, idx);
    if l > 0 {
      if OrderedUp(t, l) && idx < |Node(t, l, p).entries| - 1 {
        JoiningOrdered(c, t, l, p, idx, q);
        assert OrderedUp(t2, l + 1) && OrderedAt(t, l);
        JoinedLast(c, t, l, p, idx, q);
        NotRowEnd(c, t, l, p, idx);
        InnerJoin(t, t3, l, q, es, Before(t, l, p) + idx);
        UpperKept(t2, t3, l);
      }
    } else if Ordered(t) {
      JoiningOrdered(c, t, 0, p, idx, q);
      NeighboursLeft(c, t, p, idx, q);
      LeafJoin(t, t3, q, es);
      SameOrder(t2, t3, 1);
    }
  }

  lemma SameOrder(t2: Tree, t3: Tree, l: nat)
    requires OrderedUp(t2, l) && t3 == t2.(pool := t3.pool)
    ensures OrderedUp(t3, l)
  {
    forall k | l <= k < |t3.levels| ensures OrderedAt(t3, k) {
      assert OrderedAt(t2, k);
      forall q | 0 <= q < |t3.levels[k]| - 1 ensures EndsAtSep(t3, k, q) { assert EndsAtSep(t2, k, q); }
    }
  }

  lemma UpperKept(t2: Tree, t3: Tree, l: nat)
    requires OrderedUp(t2, l + 1) && t3 == t2.(pool := t3.pool) && (l < |t3.levels| ==> OrderedAt(t3, l))
    ensures OrderedUp(t3, l)
  {
    SameOrder(t2, t3, l + 1);
  }

  lemma JoinedLast(c: Caps, t: Tree, l: nat, p: nat, idx: nat, q: nat)
    requires R.Starved(c, t, l, p, idx, q) && idx < |Node(t, l, p).entries| - 1
    ensures R.Neighbours(R.Dropping(t, l, p, idx), l, q)
    ensures var t0 := R.Dropping(t, l, p, idx);
            LastKey(Node(t0, l, q).entries + Node(t0, l, q + 1).entries) == LastKey(Node(t, l, q + 1).entries)
  {
    R.StarvedNeighbours(c, t, l, p, idx, q);
    NodeFacts(c, t, l, q + 1);
    SameLast(Node(t, l, p).entries, idx);
  }

  /** An entry that is not the last of its node is not the last of its row. */
  lemma NotRowEnd(c: Caps, t: Tree, l: nat, p: nat, idx: nat)
    requires Ready(c, t, l) && IsNode(t, l, p) && idx < |Node(t, l, p).entries| - 1
    ensures Before(t, l, p) + idx < |Row(t, l)| - 1
  {
    EntryInRow(t, l, p);
  }

  // ---- Taking one entry from a neighbour ----

  /** Nodes `q` and `q + 1` hold `ls` and `rs`, and their separator is the last key of `ls`. */
  ghost predicate SharedAt(t: Tree, t3: Tree, l: nat, q: nat, ls: seq<Entry>, rs: seq<Entry>) {
    && l + 1 < |t.levels| && t3.levels == t.levels && q + 1 < |t.levels[l]| == |Row(t, l + 1)|
    && (forall x :: 0 <= x < |t.levels[l]| && x != q && x != q + 1 ==>
          Ents(t3.disk, t.levels[l][x]) == Ents(t.disk, t.levels[l][x]))
    && Ents(t3.disk, t.levels[l][q]) == ls && Ents(t3.disk, t.levels[l][q + 1]) == rs
    && Row(t3, l + 1) == Row(t, l + 1)[q := Entry(LastKey(ls), Row(t, l + 1)[q].rec)]
  }

  /** The levels above that of the parent, and the last keys of the parent's level. */
  ghost predicate AboveSame(t: Tree, t3: Tree, l: nat) {
    && |t3.levels| == |t.levels| && t3.levels == t.levels
    && (forall k, x :: l + 1 < k < |t.levels| && 0 <= x < |t.levels[k]| ==>
          Ents(t3.disk, t.levels[k][x]) == Ents(t.disk, t.levels[k][x]))
    && (forall k :: l + 1 < k < |t.levels| ==> Row(t3, k) == Row(t, k))
    && (l + 1 < |t.levels| ==>
          var row := t.levels[l + 1];
          forall x :: 0 <= x < |row| ==> LastKey(Ents(t3.disk, row[x])) == LastKey(Ents(t.disk, row[x])))
  }

  lemma SepsUpdate(row: seq<Entry>, q: nat, e: Entry)
    requires SortedSeps(row) && q + 1 < |row|
    requires (q > 0 ==> row[q - 1].key <= e.key) && (q + 1 < |row| - 1 ==> e.key <= row[q + 1].key)
    ensures SortedSeps(row[q := e])
  {
    var row' := row[q := e];
    forall i, j | 0 <= i < j < |row'| - 1 ensures row'[i].key <= row'[j].key {
      if j == q {
        assert row[i].key <= row[q - 1].key;
      } else if i == q {
        assert row[q + 1].key <= row[j].key;
      }
    }
  }

  /** The separators of the level of two nodes that share. */
  lemma SharedSeps(t: Tree, t3: Tree, l: nat, q: nat, ls: seq<Entry>, rs: seq<Entry>)
    requires SharedAt(t, t3, l, q, ls, rs)
    ensures Sep(t3, l, q) == LastKey(ls)
    ensures forall x :: 0 <= x < |t.levels[l]| && x != q ==> Sep(t3, l, x) == Sep(t, l, x)
  {}

  lemma ParentSorted(t: Tree, t3: Tree, l: nat, q: nat, ls: seq<Entry>, rs: seq<Entry>)
    requires SharedAt(t, t3, l, q, ls, rs) && AboveSame(t, t3, l) && OrderedUp(t, l + 1)
    requires (q > 0 ==> Sep(t, l, q - 1) <= LastKey(ls))
    requires (q + 1 < |t.levels[l]| - 1 ==> LastKey(ls) <= Sep(t, l, q + 1))
    ensures OrderedUp(t3, l + 1)
  {
    forall k | l + 1 <= k < |t.levels| ensures OrderedAt(t3, k) {
      assert OrderedAt(t, k);
      if k > l + 1 {
        OrderedFrame(t, t3, k);
      } else {
        SepsUpdate(Row(t, l + 1), q, Entry(LastKey(ls), Row(t, l + 1)[q].rec));
        forall x | 0 <= x < |t.levels[k]| - 1 ensures EndsAtSep(t3, k, x) {
          assert EndsAtSep(t, k, x);
        }
      }
    }
  }

  lemma InnerShare(t: Tree, t3: Tree, l: nat, q: nat, ls: seq<Entry>, rs: seq<Entry>)
    requires l > 0 && SharedAt(t, t3, l, q, ls, rs) && OrderedAt(t, l) && SortedSeps(Row(t3, l))
    requires LastKey(rs) == LastKey(Ents(t.disk, t.levels[l][q + 1]))
    ensures OrderedAt(t3, l)
  {
    SharedSeps(t, t3, l, q, ls, rs);
    forall x | 0 <= x < |t.levels[l]| - 1 ensures EndsAtSep(t3, l, x) {
      assert EndsAtSep(t, l, x);
    }
  }

  lemma LeafShare(t: Tree, t3: Tree, q: nat, ls: seq<Entry>, rs: seq<Entry>)
    requires SharedAt(t, t3, 0, q, ls, rs) && LeavesOk(t) && LeavesLeft(t, q, ls + rs) && ls != []
    ensures LeavesOk(t3)
  {
    SharedSeps(t, t3, 0, q, ls, rs);
    SplitSorted(ls, rs);
    forall x | 0 <= x < |t.levels[0]| ensures LeafOk(t3, x) {
      assert LeafOk(t, x);
      if x == q || x == q + 1 {
        LeafShareAt(t, t3, q, ls, rs, x);
      }
    }
  }

  lemma SplitSorted(ls: seq<Entry>, rs: seq<Entry>)
    requires Sorted(ls + rs)
    ensures Sorted(ls) && Sorted(rs)
    ensures forall i :: 0 <= i < |ls| ==> ls[i].key <= LastKey(ls)
    ensures ls != [] ==> forall i :: 0 <= i < |rs| ==> LastKey(ls) <= rs[i].key
  {
    var all := ls + rs;
    forall i | 0 <= i < |rs| ensures rs[i] == all[|ls| + i] {}
    forall i | 0 <= i < |ls| ensures ls[i] == all[i] {}
  }

  lemma LeafShareAt(t: Tree, t3: Tree, q: nat, ls: seq<Entry>, rs: seq<Entry>, x: nat)
    requires SharedAt(t, t3, 0, q, ls, rs) && LeavesLeft(t, q, ls + rs) && ls != [] && (x == q || x == q + 1)
    ensures LeafOk(t3, x)
  {
    SharedSeps(t, t3, 0, q, ls, rs);
    SplitSorted(ls, rs);
    forall i | 0 <= i < |rs| ensures rs[i] == (ls + rs)[|ls| + i] {}
    forall i | 0 <= i < |ls| ensures ls[i] == (ls + rs)[i] {}
  }

  /** Everything two neighbours need for sharing `ls` and `rs` under entry `i` of their parent, node `pq`. */
  ghost predicate CanShare(c: Caps, t: Tree, l: nat, p: nat, idx: nat, q: nat, ls: seq<Entry>, rs: seq<Entry>,
                           pq: nat, i: nat) {
    && R.Starved(c, t, l, p, idx, q)
    && (var t0 := R.Dropping(t, l, p, idx);
        && R.Neighbours(t0, l, q)
        && ls + rs == Node(t0, l, q).entries + Node(t0, l, q + 1).entries)
    && Cap(c, l) / 2 <= |ls| <= Cap(c, l) && Cap(c, l) / 2 <= |rs| <= Cap(c, l)
    && IsNode(t, l + 1, pq) && i < |Node(t, l + 1, pq).entries| - 1
    && Before(t, l + 1, pq) + i == q
    && t.levels[l + 1][pq] != t.levels[l][q] && t.levels[l + 1][pq] != t.levels[l][q + 1]
  }

  lemma SharingAt(c: Caps, t: Tree, l: nat, p: nat, idx: nat, q: nat, ls: seq<Entry>, rs: seq<Entry>, pq: nat, i: nat)
    requires CanShare(c, t, l, p, idx, q, ls, rs, pq, i)
    ensures var t3 := R.Sharing(R.Dropping(t, l, p, idx), l, q, ls, rs, pq, i);
            SharedAt(t, t3, l, q, ls, rs) && AboveSame(t, t3, l)
  {
    hide Blocks, BlocksOk, Shape, SharedAt, AboveSame;
    SharingNodes(c, t, l, p, idx, q, ls, rs, pq, i);
    SharingParentRow(c, t, l, p, idx, q, ls, rs, pq, i);
    SharingAbove(c, t, l, p, idx, q, ls, rs, pq, i);
    IsShared(c, t, R.Sharing(R.Dropping(t, l, p, idx), l, q, ls, rs, pq, i), l, q, ls, rs);
  }

  lemma IsShared(c: Caps, t: Tree, t3: Tree, l: nat, q: nat, ls: seq<Entry>, rs: seq<Entry>)
    requires Ready(c, t, l) && l + 1 < |t.levels| && t3.levels == t.levels && q + 1 < |t.levels[l]|
    requires forall x :: 0 <= x < |t.levels[l]| && x != q && x != q + 1 ==>
               Ents(t3.disk, t.levels[l][x]) == Ents(t.disk, t.levels[l][x])
    requires Ents(t3.disk, t.levels[l][q]) == ls && Ents(t3.disk, t.levels[l][q + 1]) == rs
    requires q < |Row(t, l + 1)| && Row(t3, l + 1) == Row(t, l + 1)[q := Entry(LastKey(ls), Row(t, l + 1)[q].rec)]
    ensures SharedAt(t, t3, l, q, ls, rs)
  {
    assert LevelOk(c, t.disk, t.levels, l);
    assert |Recs(Row(t, l + 1))| == |t.levels[l]|;
  }

  lemma SharingNodes(c: Caps, t: Tree, l: nat, p: nat, idx: nat, q: nat, ls: seq<Entry>, rs: seq<Entry>,
          pq: nat, i: nat)
    requires CanShare(c, t, l, p, idx, q, ls, rs, pq, i)
    ensures var t3 := R.Sharing(R.Dropping(t, l, p, idx), l, q, ls, rs, pq, i);
      && (forall x :: 0 <= x < |t.levels[l]| && x != q && x != q + 1 ==>
            Ents(t3.disk, t.levels[l][x]) == Ents(t.disk, t.levels[l][x]))
      && Ents(t3.disk, t.levels[l][q]) == ls && Ents(t3.disk, t.levels[l][q + 1]) == rs
  {
    assert LevelOk(c, t.disk, t.levels, l);
    Distinct(c, t.disk, t.levels[l], l, false);
    forall x: nat | x < |t.levels[l]| ensures t.levels[l][x] != t.levels[l + 1][pq] {
      LevelsApart(c, t.disk, t.levels, t.root, l, l + 1, pq, l, x);
    }
  }

  /** The parent's entries, with the key of the left neighbour replaced. */
  ghost function Rekeyed(t: Tree, l: nat, pq: nat, i: nat, key: int): seq<Entry>
    requires IsNode(t, l + 1, pq) && i < |Node(t, l + 1, pq).entries|
  {
    var es := Node(t, l + 1, pq).entries;
    es[i := Entry(key, es[i].rec)]
  }

  lemma SharingParentRow(c: Caps, t: Tree, l: nat, p: nat, idx: nat, q: nat, ls: seq<Entry>, rs: seq<Entry>,
                         pq: nat, i: nat)
    requires CanShare(c, t, l, p, idx, q, ls, rs, pq, i)
    ensures var t3 := R.Sharing(R.Dropping(t, l, p, idx), l, q, ls, rs, pq, i);
            q < |Row(t, l + 1)| && Row(t3, l + 1) == Row(t, l + 1)[q := Entry(LastKey(ls), Row(t, l + 1)[q].rec)]
  {
    hide Blocks, BlocksOk;
    var t3 := R.Sharing(R.Dropping(t, l, p, idx), l, q, ls, rs, pq, i);
    var row := t.levels[l + 1];
    SharingUpperNodes(c, t, l, p, idx, q, ls, rs, pq, i);
    RekeyedRow(t.disk, t3.disk, row, pq, i, LastKey(ls));
  }

  lemma RekeyedRow(d: Disk, d': Disk, row: seq<Address>, p: nat, i: nat, key: int)
    requires p < |row| && i < |Ents(d, row[p])|
    requires forall x :: 0 <= x < |row| && x != p ==> Ents(d', row[x]) == Ents(d, row[x])
    requires Ents(d', row[p]) == Ents(d, row[p])[i := Entry(key, Ents(d, row[p])[i].rec)]
    ensures var q := |Flat(d, row[..p])| + i; var all := Flat(d, row);
            q < |all| && Flat(d', row) == all[q := Entry(key, all[q].rec)]
  {
    hide Flat;
    FlatPut(d, d', row, p);
    FlatAt(d, row, p);
    UpdateWithin(Flat(d, row[..p]), Ents(d, row[p]), Flat(d, row[p + 1..]), i, Entry(key, Ents(d, row[p])[i].rec));
  }

  lemma UpdateWithin(pre: seq<Entry>, s: seq<Entry>, post: seq<Entry>, i: nat, e: Entry)
    requires i < |s|
    ensures pre + s[i := e] + post == (pre + s + post)[|pre| + i := e]
  {}

  lemma SharingUpperNodes(c: Caps, t: Tree, l: nat, p: nat, idx: nat, q: nat, ls: seq<Entry>, rs: seq<Entry>,
                          pq: nat, i: nat)
    requires CanShare(c, t, l, p, idx, q, ls, rs, pq, i)
    ensures var t3 := R.Sharing(R.Dropping(t, l, p, idx), l, q, ls, rs, pq, i);
        var row := t.levels[l + 1];
      && (forall x :: 0 <= x < |row| && x != pq ==> Ents(t3.disk, row[x]) == Ents(t.disk, row[x]))
      && Ents(t3.disk, row[pq]) == Rekeyed(t, l, pq, i, LastKey(ls))
  {
    var t3 := R.Sharing(R.Dropping(t, l, p, idx), l, q, ls, rs, pq, i);
    var row := t.levels[l + 1];
    assert LevelOk(c, t.disk, t.levels, l + 1);
    Distinct(c, t.disk, row, l + 1, l + 1 == |t.levels| - 1);
    forall x: nat | x < |row| ensures row[x] != t.levels[l][q] && row[x] != t.levels[l][q + 1] {
      LevelsApart(c, t.disk, t.levels, t.root, l, l + 1, x, l, q);
      LevelsApart(c, t.disk, t.levels, t.root, l, l + 1, x, l, q + 1);
    }
  }

  lemma SharingAbove(c: Caps, t: Tree, l: nat, p: nat, idx: nat, q: nat, ls: seq<Entry>, rs: seq<Entry>,
          pq: nat, i: nat)
    requires CanShare(c, t, l, p, idx, q, ls, rs, pq, i)
    ensures AboveSame(t, R.Sharing(R.Dropping(t, l, p, idx), l, q, ls, rs, pq, i), l)
  {
    hide Blocks, BlocksOk;
    var t3 := R.Sharing(R.Dropping(t, l, p, idx), l, q, ls, rs, pq, i);
    SharingUpperNodes(c, t, l, p, idx, q, ls, rs, pq, i);
    var es := Node(t, l + 1, pq).entries;
    assert LastKey(Rekeyed(t, l, pq, i, LastKey(ls))) == LastKey(es);
    forall k: nat, x: nat | l + 1 < k < |t.levels| && x < |t.levels[k]|
      ensures t.levels[k][x] in t.disk && Ents(t3.disk, t.levels[k][x]) == Ents(t.disk, t.levels[k][x]) {
      LevelsApart(c, t.disk, t.levels, t.root, l, k, x, l, q);
      LevelsApart(c, t.disk, t.levels, t.root, l, k, x, l, q + 1);
      LevelsApart(c, t.disk, t.levels, t.root, l, k, x, l + 1, pq);
      assert LevelOk(c, t.disk, t.levels, k) && NodeOk(c, t.disk, t.levels[k], k, k == |t.levels| - 1, x);
    }
    forall k | l + 1 < k < |t.levels| ensures Row(t3, k) == Row(t, k) {
      FlatFrame(t.disk, t3.disk, t.levels[k]);
    }
  }

  /** Sharing keeps the order. */
  lemma SharedKept(c: Caps, t: Tree, l: nat, p: nat, idx: nat, q: nat, ls: seq<Entry>, rs: seq<Entry>, pq: nat, i: nat)
    requires CanShare(c, t, l, p, idx, q, ls, rs, pq, i)
    requires LastKey(rs) == LastKey(Node(R.Dropping(t, l, p, idx), l, q + 1).entries)
    requires R.Shrunk(OK, c, t, R.Sharing(R.Dropping(t, l, p, idx), l, q, ls, rs, pq, i), l, R.RowWithout(t, l, p, idx))
    ensures KeptDown(t, l, p, idx, R.Sharing(R.Dropping(t, l, p, idx), l, q, ls, rs, pq, i))
  {
    hide Blocks, BlocksOk, Shape, SharedAt, AboveSame, OrderedAt, LeafOk, LeavesLeft;
    var t3 := R.Sharing(R.Dropping(t, l, p, idx), l, q, ls, rs, pq, i);
    SharingAt(c, t, l, p, idx, q, ls, rs, pq, i);
    if l > 0 {
      if OrderedUp(t, l) && idx < |Node(t, l, p).entries| - 1 {
        assert OrderedAt(t, l);
        SharedKeptInner(c, t, t3, l, p, idx, q, ls, rs);
      }
    } else if Ordered(t) {
      NeighboursLeft(c, t, p, idx, q);
      LeafShare(t, t3, q, ls, rs);
      LeafMid(t, q, ls, rs);
      ParentSorted(t, t3, 0, q, ls, rs);
    }
  }

  /** Sharing ends the removal. */
  lemma SharedEnds(c: Caps, t: Tree, l: nat, p: nat, idx: nat, q: nat, ls: seq<Entry>, rs: seq<Entry>, pq: nat, i: nat)
    requires CanShare(c, t, l, p, idx, q, ls, rs, pq, i)
    requires LastKey(rs) == LastKey(Node(R.Dropping(t, l, p, idx), l, q + 1).entries)
    ensures R.Shrunk(OK, c, t, R.Sharing(R.Dropping(t, l, p, idx), l, q, ls, rs, pq, i), l, R.RowWithout(t, l, p, idx))
    ensures KeptDown(t, l, p, idx, R.Sharing(R.Dropping(t, l, p, idx), l, q, ls, rs, pq, i))
  {
    hide R.Shrunk, KeptDown;
    R.SharedDone(c, t, l, p, idx, q, ls, rs, pq, i);
    SharedKept(c, t, l, p, idx, q, ls, rs, pq, i);
  }

  /** The parent of two joined nodes is ready to drop the left one. */
  lemma JoiningStarts(c: Caps, t: Tree, l: nat, p: nat, idx: nat, q: nat, parent: View, i: nat, pq: nat)
    requires R.Starved(c, t, l, p, idx, q) && R.Neighbours(R.Dropping(t, l, p, idx), l, q)
    requires ParentAt(t.disk, t.levels, parent, i, l, q, pq)
    ensures var t1 := R.Joining(R.Dropping(t, l, p, idx), l, q);
            && Ready(c, t1, l + 1) && ViewAt(t1.disk, t1.levels, parent, l + 1, pq)
            && Ents(t1.disk, parent.addr) == Ents(t.disk, parent.addr) && i < |Ents(t.disk, parent.addr)|
            && IsNode(t1, l + 1, pq) && i < |Node(t1, l + 1, pq).entries|
  {
    hide Flat, Shape, Blocks, BlocksOk;
    var t1 := R.Joining(R.Dropping(t, l, p, idx), l, q);
    R.JoiningFrame(c, t, l, p, idx, q);
    R.ParentStays(c, t, t1, parent, i, l, q, pq);
    R.ParentRow(t1, parent, i, l, q, pq);
    R.ParentFacts(c, t, l, p, idx, q, parent, i, pq);
    assert SameRow(t.disk, t1.disk, t.levels[l + 1]);
  }

  /** Joining ends the removal once the parent has dropped the left node and its block is free. */
  lemma JoiningEnds(st: Status, c: Caps, t: Tree, t2: Tree, l: nat, p: nat, idx: nat, q: nat, parent: View,
          i: nat, pq: nat)
    requires R.Starved(c, t, l, p, idx, q) && R.Neighbours(R.Dropping(t, l, p, idx), l, q)
    requires |Node(t, l, q).entries| + |Node(t, l, q + 1).entries| <= Cap(c, l) + 1
    requires ParentAt(t.disk, t.levels, parent, i, l, q, pq) && i + 1 < |Ents(t.disk, parent.addr)|
    requires var t1 := R.Joining(R.Dropping(t, l, p, idx), l, q);
             && IsNode(t1, l + 1, pq) && i < |Node(t1, l + 1, pq).entries|
             && R.Shrunk(st, c, t1, t2, l + 1, R.RowWithout(t1, l + 1, pq, i)) && KeptDown(t1, l + 1, pq, i, t2)
    ensures var t3 := t2.(pool := t2.pool + [t.levels[l][q]]);
            st == OK && R.Shrunk(st, c, t, t3, l, R.RowWithout(t, l, p, idx)) && KeptDown(t, l, p, idx, t3)
  {
    hide KeptDown, R.Shrunk, R.RowWithout, Ready, Flat;
    var t1 := R.Joining(R.Dropping(t, l, p, idx), l, q);
    R.JoiningFrame(c, t, l, p, idx, q);
    R.ParentStays(c, t, t1, parent, i, l, q, pq);
    R.ParentRow(t1, parent, i, l, q, pq);
    JoiningStarts(c, t, l, p, idx, q, parent, i, pq);
    R.NeverFails(st, c, t1, t2, l + 1, R.RowWithout(t1, l + 1, pq, i));
    R.JoinedDone(c, t, t2, l, p, idx, q);
    assert ViewAt(t1.disk, t1.levels, parent, l + 1, pq);
    JoinedKept(c, t, t2, l, p, idx, q, pq, i);
  }

  /** The highest entry of `q` moves to its starved right neighbour. */
  lemma HighestMoves(c: Caps, t: Tree, l: nat, p: nat, idx: nat, q: nat, parent: View, i: nat, pq: nat)
    requires R.Starved(c, t, l, p, idx, q) && p == q + 1
    requires ParentAt(t.disk, t.levels, parent, i, l, q, pq) && i + 1 < |Ents(t.disk, parent.addr)|
    requires R.Neighbours(R.Dropping(t, l, p, idx), l, q)
    requires var t0 := R.Dropping(t, l, p, idx); |Node(t0, l, q).entries| + |Node(t0, l, p).entries| > Cap(c, l)
    ensures R.CanMove(t, l, p, idx, q, parent, i, pq)
    ensures var t0 := R.Dropping(t, l, p, idx);
            && |Node(t0, l, q).entries| >= 2
            && var es, n := Node(t0, l, q).entries, |Node(t0, l, q).entries| - 1;
            && CanShare(c, t, l, p, idx, q, es[..n], [es[n]] + Node(t0, l, p).entries, pq, i)
            && var t3 := R.Sharing(t0, l, q, es[..n], [es[n]] + Node(t0, l, p).entries, pq, i);
            R.Shrunk(OK, c, t, t3, l, R.RowWithout(t, l, p, idx)) && KeptDown(t, l, p, idx, t3)
  {
    hide R.Shrunk, KeptDown, R.RowWithout, R.Starved, ParentAt, Shape, Blocks, BlocksOk, R.Sharing;
    R.StarvedFacts(c, t, l, p, idx, q);
    R.ParentFacts(c, t, l, p, idx, q, parent, i, pq);
    var t0 := R.Dropping(t, l, p, idx);
    var es := Node(t0, l, q).entries;
    SharedEnds(c, t, l, p, idx, q, es[..|es| - 1], [es[|es| - 1]] + Node(t0, l, p).entries, pq, i);
  }

  /** The lowest entry of the right neighbour moves to the starved node. */
  lemma LowestMoves(c: Caps, t: Tree, l: nat, p: nat, idx: nat, parent: View, i: nat, pq: nat)
    requires R.Starved(c, t, l, p, idx, p)
    requires ParentAt(t.disk, t.levels, parent, i, l, p, pq) && i + 1 < |Ents(t.disk, parent.addr)|
    requires R.Neighbours(R.Dropping(t, l, p, idx), l, p)
    requires var t0 := R.Dropping(t, l, p, idx); |Node(t0, l, p).entries| + |Node(t0, l, p + 1).entries| > Cap(c, l)
    ensures R.CanMove(t, l, p, idx, p, parent, i, pq)
    ensures var t0 := R.Dropping(t, l, p, idx);
            && |Node(t0, l, p + 1).entries| >= 2
            && var es := Node(t0, l, p + 1).entries;
            && CanShare(c, t, l, p, idx, p, Node(t0, l, p).entries + [es[0]], es[1..], pq, i)
            && var t3 := R.Sharing(t0, l, p, Node(t0, l, p).entries + [es[0]], es[1..], pq, i);
            R.Shrunk(OK, c, t, t3, l, R.RowWithout(t, l, p, idx)) && KeptDown(t, l, p, idx, t3)
  {
    hide R.Shrunk, KeptDown, R.RowWithout, R.Starved, ParentAt, Shape, Blocks, BlocksOk, R.Sharing;
    R.StarvedFacts(c, t, l, p, idx, p);
    R.ParentFacts(c, t, l, p, idx, p, parent, i, pq);
    var t0 := R.Dropping(t, l, p, idx);
    var es := Node(t0, l, p + 1).entries;
    assert Node(t0, l, p).entries + [es[0]] + es[1..] == Node(t0, l, p).entries + es;
    SharedEnds(c, t, l, p, idx, p, Node(t0, l, p).entries + [es[0]], es[1..], pq, i);
  }

  lemma LeafMid(t: Tree, q: nat, ls: seq<Entry>, rs: seq<Entry>)
    requires t.levels != [] && q + 1 < |t.levels[0]| && LeavesLeft(t, q, ls + rs) && ls != []
    ensures q > 0 ==> Sep(t, 0, q - 1) <= LastKey(ls)
    ensures q + 1 < |t.levels[0]| - 1 ==> LastKey(ls) <= Sep(t, 0, q + 1)
  {
    assert (ls + rs)[|ls| - 1] == ls[|ls| - 1];
  }

  lemma SharedKeptInner(c: Caps, t: Tree, t3: Tree, l: nat, p: nat, idx: nat, q: nat, ls: seq<Entry>, rs: seq<Entry>)
    requires R.Starved(c, t, l, p, idx, q) && 0 < l && idx < |Node(t, l, p).entries| - 1
    requires R.Neighbours(R.Dropping(t, l, p, idx), l, q) && ls != [] && rs != []
    requires ls + rs == Node(R.Dropping(t, l, p, idx), l, q).entries + Node(R.Dropping(t, l, p, idx), l, q + 1).entries
    requires LastKey(rs) == LastKey(Node(R.Dropping(t, l, p, idx), l, q + 1).entries)
    requires R.Shrunk(OK, c, t, t3, l, R.RowWithout(t, l, p, idx)) && l < |t3.levels|
    requires SharedAt(t, t3, l, q, ls, rs) && AboveSame(t, t3, l) && OrderedUp(t, l)
    ensures OrderedUp(t3, l)
  {
    hide Blocks, BlocksOk, LevelOk, SharedAt, AboveSame, Flat, OrderedAt, RemoveAt, R.Dropping, SortedSeps;
    assert OrderedAt(t, l);
    SharedLength(t, t3, l, q, ls, rs);
    SharedRowSorted(c, t, t3, l, p, idx, q);
    R.StarvedFacts(c, t, l, p, idx, q);
    SharedEnd(c, t, l, p, idx, q, rs);
    InnerShare(t, t3, l, q, ls, rs);
    InnerMid(c, t, t3, l, p, idx, q, ls, rs);
    ParentSorted(t, t3, l, q, ls, rs);
  }

  lemma SharedRowSorted(c: Caps, t: Tree, t3: Tree, l: nat, p: nat, idx: nat, q: nat)
    requires R.Starved(c, t, l, p, idx, q) && idx < |Node(t, l, p).entries| - 1 && OrderedAt(t, l)
    requires R.Shrunk(OK, c, t, t3, l, R.RowWithout(t, l, p, idx)) && l < |t3.levels|
    ensures SortedSeps(Row(t3, l))
  {
    hide Blocks, BlocksOk, LevelOk, Flat;
    DropRow(c, t, l, p, idx);
    NotRowEnd(c, t, l, p, idx);
    SepsRemove(Row(t, l), Before(t, l, p) + idx);
  }

  lemma SharedEnd(c: Caps, t: Tree, l: nat, p: nat, idx: nat, q: nat, rs: seq<Entry>)
    requires R.Starved(c, t, l, p, idx, q) && 0 < l && idx < |Node(t, l, p).entries| - 1
    requires R.Neighbours(R.Dropping(t, l, p, idx), l, q) && rs != []
    requires LastKey(rs) == LastKey(Node(R.Dropping(t, l, p, idx), l, q + 1).entries)
    ensures LastKey(rs) == LastKey(Ents(t.disk, t.levels[l][q + 1]))
  {
    hide Blocks, BlocksOk, LevelOk, Flat, R.Dropping;
    JoinedLast(c, t, l, p, idx, q);
    R.StarvedFacts(c, t, l, p, idx, q);
    R.StarvedNeighbours(c, t, l, p, idx, q);
    NodeFacts(c, t, l, q + 1);
    LastOfSecond(Node(R.Dropping(t, l, p, idx), l, q).entries, Node(R.Dropping(t, l, p, idx), l, q + 1).entries);
  }

  lemma SharedLength(t: Tree, t3: Tree, l: nat, q: nat, ls: seq<Entry>, rs: seq<Entry>)
    requires SharedAt(t, t3, l, q, ls, rs)
    ensures l + 1 < |t.levels| && t3.levels == t.levels && q + 1 < |t.levels[l]| == |Row(t, l + 1)|
  {}

  lemma LastOfSecond(a: seq<Entry>, b: seq<Entry>)
    requires b != []
    ensures LastKey(a + b) == LastKey(b)
  {}

  /** The new separator lies between its neighbours. */
  lemma InnerMid(c: Caps, t: Tree, t3: Tree, l: nat, p: nat, idx: nat, q: nat, ls: seq<Entry>, rs: seq<Entry>)
    requires R.Starved(c, t, l, p, idx, q) && 0 < l && ls != [] && rs != []
    requires Ready(c, t3, l) && SharedAt(t, t3, l, q, ls, rs) && OrderedAt(t, l) && SortedSeps(Row(t3, l))
    requires LastKey(rs) == LastKey(Ents(t.disk, t.levels[l][q + 1]))
    ensures q > 0 ==> Sep(t, l, q - 1) <= LastKey(ls)
    ensures q + 1 < |t.levels[l]| - 1 ==> LastKey(ls) <= Sep(t, l, q + 1)
  {
    hide Blocks, BlocksOk, Shape, Flat;
    EntryInRow(t3, l, q);
    EntryInRow(t3, l, q + 1);
    var row := Row(t3, l);
    assert row[Before(t3, l, q) + (|ls| - 1)] == ls[|ls| - 1];
    assert row[Before(t3, l, q + 1) + (|rs| - 1)] == rs[|rs| - 1];
    if q > 0 {
      NodeFacts(c, t, l, q - 1);
      EntryInRow(t3, l, q - 1);
      assert EndsAtSep(t, l, q - 1);
      var prev := Ents(t.disk, t.levels[l][q - 1]);
      assert row[Before(t3, l, q - 1) + (|prev| - 1)] == prev[|prev| - 1];
    }
    if q + 1 < |t.levels[l]| - 1 {
      NodeFacts(c, t, l, q + 2);
      EntryInRow(t3, l, q + 2);
      assert EndsAtSep(t, l, q + 1);
    }
  }

  lemma CollapseKept(t: Tree, l: nat, p: nat, idx: nat, t': Tree)
    requires 0 < l && |t'.levels| == l
    ensures KeptDown(t, l, p, idx, t')
  {}

  /** A whole removal keeps the order. */
  ghost predicate KeptRemoved(t: Tree, t': Tree) {
    Ordered(t) ==> Ordered(t')
  }

  lemma NothingRemoved(t: Tree)
    ensures KeptRemoved(t, t)
  {}

  lemma KeptAtLeaf(t: Tree, p: nat, idx: nat, t': Tree)
    requires IsNode(t, 0, p) && KeptDown(t, 0, p, idx, t')
    ensures KeptRemoved(t, t')
  {}
}
