/**
 A tree as the lists of entries in its nodes, level by level from left to right, and what inserting or removing one
 entry makes of these lists on all levels: which nodes split, join or share, and which separators change.
 */
module BmTreeNodes {
  import opened BmTreeModel
  import opened BmTreeShape
  import opened BmTreeLeaves
  import D = BmTreeOrderRemove
  import I = BmTreeInsertLemmas
  import N = BmTreeCounts
  import O = BmTreeOrder
  import R = BmTreeRemoveLemmas

  /** The entries of each node of a level. */
  type Nodes = seq<seq<Entry>>

  ghost function NodesOf(d: Disk, row: seq<Address>): (r: Nodes)
    ensures |r| == |row| && forall x :: 0 <= x < |row| ==> r[x] == Ents(d, row[x])
  {
    seq(|row|, x requires 0 <= x < |row| => Ents(d, row[x]))
  }

  /** Level `l` and those above it. */
  ghost function Above(t: Tree, l: nat): seq<Nodes>
    decreases |t.levels| - l
  {
    if l >= |t.levels| then [] else [NodesOf(t.disk, t.levels[l])] + Above(t, l + 1)
  }

  /** Which node holds entry `p` of a level, counted through all of its nodes, and as which of its entries. */
  function Holder(row: Nodes, p: nat): (nat, nat) {
    if row == [] || p < |row[0]| then (0, p)
    else var h := Holder(row[1..], p - |row[0]|); (h.0 + 1, h.1)
  }

  // ---- What operations make of the nodes ----

  /** Node `p` makes way for two. */
  function Two(row: Nodes, p: nat, left: seq<Entry>, right: seq<Entry>): Nodes
    requires p < |row|
  {
    row[..p] + [left, right] + row[p + 1..]
  }

  /** Nodes `q` and `q + 1` become one. */
  function Joined(row: Nodes, q: nat): Nodes
    requires q + 1 < |row|
  {
    row[..q] + [row[q] + row[q + 1]] + row[q + 2..]
  }

  /** The last entry of node `q` goes to the front of the next one. */
  function MovedUp(row: Nodes, q: nat): Nodes
    requires q + 1 < |row| && row[q] != []
  {
    var a, b := row[q], row[q + 1];
    row[q := a[..|a| - 1]][q + 1 := [a[|a| - 1]] + b]
  }

  /** The first entry of node `q + 1` goes to the end of the one before. */
  function MovedDown(row: Nodes, q: nat): Nodes
    requires q + 1 < |row| && row[q + 1] != []
  {
    var a, b := row[q], row[q + 1];
    row[q := a + [b[0]]][q + 1 := b[1..]]
  }

  /** One entry moves between nodes `q` and `q + 1`. */
  function Moved(row: Nodes, q: nat, up: bool): Nodes
    requires q + 1 < |row| && row[q] != [] && row[q + 1] != []
  {
    if up then MovedUp(row, q) else MovedDown(row, q)
  }

  /** Entry `i` of node `q` gets the last key of `es`. */
  function Rekeyed(row: Nodes, q: nat, i: nat, es: seq<Entry>): Nodes
    requires q < |row| && i < |row[q]| && es != []
  {
    row[q := row[q][i := Entry(es[|es| - 1].key, row[q][i].rec)]]
  }

  /**
   The levels from `l` on after entry `idx` of node `p` was taken out of the lowest of them, and the blocks given back,
   the highest one first. A node that is no longer half full and has a parent turns to its left sibling, or as a first
   child to the right one: if both fit into one node they become one and the parent loses the left one's entry; if not,
   one entry moves and the left one's separator becomes its new last key. An inner root left with one child goes.
   */
  function Trimmed(c: Caps, up: seq<Nodes>, l: nat, p: nat, idx: nat, root: Address): (seq<Nodes>, seq<Address>)
    decreases |up|
  {
    if up == [] || p >= |up[0]| || idx >= |up[0][p]| then (up, [])
    else
      var es := RemoveAt(up[0][p], idx);
      var row := up[0][p := es];
      if |up| == 1 then if l > 0 && |es| == 1 then ([], [root]) else ([row], [])
      else if |es| >= Cap(c, l) / 2 then ([row] + up[1..], [])
      else
        var h := Holder(up[1], p);
        var left := if h.1 > 0 then h.1 - 1 else 0;
        var q := if h.1 > 0 then p - 1 else p;
        if h.1 > p || h.0 >= |up[1]| || left >= |up[1][h.0]| || q + 1 >= |row| then (up, [])
        else if |row[q]| + |row[q + 1]| <= Cap(c, l) then
          var upper := Trimmed(c, up[1..], l + 1, h.0, left, root);
          ([Joined(row, q)] + upper.0, upper.1 + [up[1][h.0][left].rec])
        else if row[q] == [] || row[q + 1] == [] then (up, [])
        else
          var shared := Moved(row, q, h.1 > 0);
          if shared[q] == [] then (up, []) else ([shared, Rekeyed(up[1], h.0, left, shared[q])] + up[2..], [])
  }

  /** Taking entry `idx` out of node `p` of level `l` of `t` leaves the levels that `t'` has from `l` on. */
  ghost predicate LevelsTrimmed(c: Caps, t: Tree, l: nat, p: nat, idx: nat, t': Tree) {
    Above(t', l) == Trimmed(c, Above(t, l), l, p, idx, t.root).0
  }

  /** The same, and the blocks that became free are on top of the pool. */
  ghost predicate TrimmedTo(c: Caps, t: Tree, l: nat, p: nat, idx: nat, t': Tree) {
    LevelsTrimmed(c, t, l, p, idx, t') && t'.pool == t.pool + Trimmed(c, Above(t, l), l, p, idx, t.root).1
  }

  /**
   The levels from `l` on after `e` was put in as entry `idx` of node `p` of the lowest of them. A full node parts in
   the middle, with the lower half in the block on top of `pool` before it.
   */
  function Grown(c: Caps, up: seq<Nodes>, l: nat, p: nat, idx: nat, e: Entry, pool: seq<Address>, root: Address)
          : seq<Nodes>
    decreases |up|, 1
  {
    if up == [] || p >= |up[0]| || idx > |up[0][p]| then up
    else
      var es, n := up[0][p], Cap(c, l) / 2;
      if |es| < Cap(c, l) then [up[0][p := InsertAt(es, idx, e)]] + up[1..]
      else if n > |es| then up
      else [Two(up[0], p, LeftPart(es, n, idx, e), RightPart(es, n, idx, e))] + GrownAbove(c, up, l, p, pool, root)
  }

  /**
   The levels above that of a node that parts: the parent gets an entry for the lower half under the half's last key, in
   front of the node's own, and the root gets a root above it.
   */
  function GrownAbove(c: Caps, up: seq<Nodes>, l: nat, p: nat, pool: seq<Address>, root: Address): seq<Nodes>
    decreases |up|, 0
  {
    if up == [] || p >= |up[0]| || pool == [] || !(0 < Cap(c, l) / 2 <= |up[0][p]|) then []
    else
      var half := Entry(up[0][p][Cap(c, l) / 2 - 1].key, pool[|pool| - 1]);
      if |up| == 1 then [[[half, Entry(0, root)]]]
      else
        var h := Holder(up[1], p);
        Grown(c, up[1..], l + 1, h.0, h.1, half, pool[..|pool| - 1], root)
  }

  ghost predicate GrownTo(c: Caps, t: Tree, l: nat, p: nat, idx: nat, e: Entry, t': Tree) {
    Above(t', l) == Grown(c, Above(t, l), l, p, idx, e, t.pool, t.root)
  }

  /** What is left of a node whose lower half has moved out. */
  function UpperHalf(c: Caps, l: nat, es: seq<Entry>): seq<Entry> {
    if Cap(c, l) / 2 <= |es| then es[Cap(c, l) / 2..] else es
  }

  /**
   The levels from `l` on after an insertion at node `p` of the lowest of them that ran out of blocks with the last of
   `n`: that many nodes on the way up have lost their lower halves, to blocks that are free again.
   */
  function Stunted(c: Caps, up: seq<Nodes>, l: nat, p: nat, n: nat): seq<Nodes>
    decreases |up|
  {
    if n == 0 || up == [] || p >= |up[0]| then up
    else
      var row := up[0][p := UpperHalf(c, l, up[0][p])];
      [row] + if |up| == 1 then [] else Stunted(c, up[1..], l + 1, Holder(up[1], p).0, n - 1)
  }

  /** `t'` is what a failed insertion at node `p` of level `l` leaves of `t`, apart from the links between nodes. */
  ghost predicate StuntedTo(c: Caps, t: Tree, l: nat, p: nat, t': Tree) {
    && t'.levels == t.levels && t'.root == t.root && t'.pool == t.pool
    && Above(t', l) == Stunted(c, Above(t, l), l, p, |t.pool|)
    && forall k :: 0 <= k < l && k < |t.levels| ==> SameRow(t.disk, t'.disk, t.levels[k])
  }

  /** `t'` is `t` with node `p` of level `l` in two halves, before the pending entry is placed. */
  ghost predicate HalvedTo(c: Caps, t: Tree, l: nat, p: nat, t': Tree) {
    && IsNode(t, l, p) && |Node(t, l, p).entries| >= Cap(c, l) / 2
    && var es, n := Node(t, l, p).entries, Cap(c, l) / 2;
       Above(t', l) == [Two(NodesOf(t.disk, t.levels[l]), p, es[..n], es[n..])]
                     + GrownAbove(c, Above(t, l), l, p, t.pool, t.root)
  }

  // ---- Reading levels ----

  lemma AboveStep(t: Tree, l: nat)
    requires l < |t.levels|
    ensures Above(t, l) == [NodesOf(t.disk, t.levels[l])] + Above(t, l + 1)
    ensures Above(t, l)[1..] == Above(t, l + 1)
  {}

  lemma AboveNone(t: Tree, l: nat)
    requires l >= |t.levels|
    ensures Above(t, l) == []
  {}

  lemma {:induction false} AboveLength(t: Tree, l: nat)
    requires l <= |t.levels|
    ensures |Above(t, l)| == |t.levels| - l
    decreases |t.levels| - l
  {
    if l < |t.levels| { AboveLength(t, l + 1); }
  }

  lemma {:induction false} AboveFrame(t: Tree, t': Tree, l: nat)
    requires |t'.levels| == |t.levels| && forall k :: l <= k < |t.levels| ==> t'.levels[k] == t.levels[k]
    requires forall k, x :: l <= k < |t.levels| && 0 <= x < |t.levels[k]| ==>
               Ents(t'.disk, t.levels[k][x]) == Ents(t.disk, t.levels[k][x])
    ensures Above(t', l) == Above(t, l)
    decreases |t.levels| - l
  {
    if l < |t.levels| {
      AboveFrame(t, t', l + 1);
      assert NodesOf(t'.disk, t'.levels[l]) == NodesOf(t.disk, t.levels[l]);
    }
  }

  lemma {:induction false} HolderOf(d: Disk, row: seq<Address>, pq: nat, i: nat)
    requires pq < |row| && i < |Ents(d, row[pq])|
    ensures Holder(NodesOf(d, row), |Flat(d, row[..pq])| + i) == (pq, i)
  {
    if pq > 0 {
      HolderOf(d, row[1..], pq - 1, i);
      assert row[..pq][1..] == row[1..][..pq - 1];
      assert NodesOf(d, row)[1..] == NodesOf(d, row[1..]);
    }
  }

  // ---- Removal ----

  lemma CollapseTrims(c: Caps, t: Tree, l: nat, idx: nat)
    requires Ready(c, t, l) && 0 < l == |t.levels| - 1 && |Ents(t.disk, t.root)| == 2 && idx <= 1
    ensures TrimmedTo(c, t, l, 0, idx, R.Collapsing(t, idx))
  {
    hide Flat, Blocks, BlocksOk;
    NodeFacts(c, t, l, 0);
    AboveStep(t, l);
    AboveNone(t, l + 1);
  }

  lemma DropTrims(c: Caps, t: Tree, l: nat, p: nat, idx: nat)
    requires Ready(c, t, l) && IsNode(t, l, p) && idx < |Node(t, l, p).entries|
    requires l < |t.levels| - 1 ==> |Node(t, l, p).entries| > Cap(c, l) / 2
    requires l == |t.levels| - 1 && l > 0 ==> |Node(t, l, p).entries| > 2
    ensures TrimmedTo(c, t, l, p, idx, R.Dropping(t, l, p, idx))
  {
    hide Flat, Blocks, BlocksOk, Shape;
    var t' := R.Dropping(t, l, p, idx);
    D.DropFrame(c, t, l, p, idx);
    AboveStep(t, l);
    AboveStep(t', l);
    AboveLength(t, l);
    AboveFrame(t, t', l + 1);
    assert NodesOf(t'.disk, t.levels[l]) == NodesOf(t.disk, t.levels[l])[p := RemoveAt(Node(t, l, p).entries, idx)];
  }

  /** Node `p` of the lowest level is `q` or `q + 1`, its sibling the other; entry `i` of node `pq` is that of `q`. */
  predicate Siblings(up: seq<Nodes>, p: nat, q: nat, pq: nat, i: nat) {
    && |up| > 1 && q + 1 < |up[0]| && pq < |up[1]| && i + 1 < |up[1][pq]| && i <= q
    && (if p == q then i == 0 && Holder(up[1], p) == (pq, 0) else p == q + 1 && Holder(up[1], p) == (pq, i + 1))
  }

  lemma TrimJoins(c: Caps, up: seq<Nodes>, l: nat, p: nat, idx: nat, root: Address, q: nat, pq: nat, i: nat)
    requires Siblings(up, p, q, pq, i) && idx < |up[0][p]| == Cap(c, l) / 2
    requires |up[0][q]| + |up[0][q + 1]| <= Cap(c, l) + 1
    ensures var row := up[0][p := RemoveAt(up[0][p], idx)]; var upper := Trimmed(c, up[1..], l + 1, pq, i, root);
            Trimmed(c, up, l, p, idx, root) == ([Joined(row, q)] + upper.0, upper.1 + [up[1][pq][i].rec])
  {
    hide Joined, RemoveAt, Holder;
  }

  lemma TrimShares(c: Caps, up: seq<Nodes>, l: nat, p: nat, idx: nat, root: Address, q: nat, pq: nat, i: nat,
          shared: Nodes)
    requires Siblings(up, p, q, pq, i) && idx < |up[0][p]| == Cap(c, l) / 2
    requires |up[0][q]| + |up[0][q + 1]| > Cap(c, l) + 1 && |up[0][q]| > 0 && |up[0][q + 1]| > 0
    requires var row := up[0][p := RemoveAt(up[0][p], idx)];
             && row[q] != [] && row[q + 1] != []
             && shared == Moved(row, q, p != q) && shared[q] != []
    ensures Trimmed(c, up, l, p, idx, root) == ([shared, Rekeyed(up[1], pq, i, shared[q])] + up[2..], [])
  {
    hide Moved, RemoveAt, Holder;
  }

  lemma SiblingsOf(c: Caps, t: Tree, l: nat, p: nat, idx: nat, q: nat, parent: View, i: nat, pq: nat)
    requires R.Starved(c, t, l, p, idx, q) && (p == q ==> i == 0)
    requires ParentAt(t.disk, t.levels, parent, i, l, q, pq) && i + 1 < |Ents(t.disk, parent.addr)|
    ensures Siblings(Above(t, l), p, q, pq, i) && Above(t, l)[1] == NodesOf(t.disk, t.levels[l + 1])
    ensures Above(t, l)[1][pq][i].rec == t.levels[l][q]
  {
    hide Flat, Holder, NodesOf, Blocks, BlocksOk, LevelOk;
    AboveStep(t, l);
    AboveStep(t, l + 1);
    HolderOf(t.disk, t.levels[l + 1], pq, if p == q then 0 else i + 1);
    ChildHere(c, t, l, q, pq, i);
  }

  lemma ChildHere(c: Caps, t: Tree, l: nat, q: nat, pq: nat, i: nat)
    requires Ready(c, t, l) && l + 1 < |t.levels| && pq < |t.levels[l + 1]|
    requires i < |Ents(t.disk, t.levels[l + 1][pq])| && Before(t, l + 1, pq) + i == q
    ensures q < |t.levels[l]| && t.levels[l][q] == Ents(t.disk, t.levels[l + 1][pq])[i].rec
  {
    assert LevelOk(c, t.disk, t.levels, l);
    ChildOf(c, t, l, pq, i);
  }

  /** The levels above two joined nodes are still the same. */
  lemma JoiningAbove(c: Caps, t: Tree, l: nat, p: nat, idx: nat, q: nat)
    requires R.Starved(c, t, l, p, idx, q)
    ensures R.Neighbours(R.Dropping(t, l, p, idx), l, q)
    ensures var t1 := R.Joining(R.Dropping(t, l, p, idx), l, q);
            Above(t1, l + 1) == Above(t, l + 1) && t1.pool == t.pool && t1.root == t.root
  {
    hide Flat, Blocks, BlocksOk, LevelOk;
    R.JoiningFrame(c, t, l, p, idx, q);
    var t1 := R.Joining(R.Dropping(t, l, p, idx), l, q);
    forall k, x | l + 1 <= k < |t.levels| && 0 <= x < |t.levels[k]|
      ensures Ents(t1.disk, t.levels[k][x]) == Ents(t.disk, t.levels[k][x]) {
      N.InDisk(c, t, l, k, x);
      assert SameRow(t.disk, t1.disk, t.levels[k]);
    }
    AboveFrame(t, t1, l + 1);
  }

  /** The row of two joined nodes. */
  lemma JoinedRow(c: Caps, t: Tree, t2: Tree, l: nat, p: nat, idx: nat, q: nat)
    requires R.Starved(c, t, l, p, idx, q) && R.Neighbours(R.Dropping(t, l, p, idx), l, q)
    requires |Node(t, l, q).entries| + |Node(t, l, q + 1).entries| <= Cap(c, l) + 1
    requires var t1 := R.Joining(R.Dropping(t, l, p, idx), l, q); SameRow(t1.disk, t2.disk, t1.levels[l])
    ensures NodesOf(t2.disk, RemoveAt(t.levels[l], q))
         == Joined(NodesOf(t.disk, t.levels[l])[p := RemoveAt(Node(t, l, p).entries, idx)], q)
  {
    hide Flat, Ready;
    D.JoinedNodes(c, t, t2, l, p, idx, q);
    R.StarvedNeighbours(c, t, l, p, idx, q);
    var row', was := RemoveAt(t.levels[l], q), NodesOf(t.disk, t.levels[l])[p := RemoveAt(Node(t, l, p).entries, idx)];
    forall x: nat | x < |row'| ensures Ents(t2.disk, row'[x]) == Joined(was, q)[x] {
      assert row'[x] == t.levels[l][if x < q then x else x + 1];
    }
  }

  lemma JoiningTrims(c: Caps, t: Tree, t2: Tree, l: nat, p: nat, idx: nat, q: nat, parent: View, i: nat, pq: nat)
    requires R.Starved(c, t, l, p, idx, q) && R.Neighbours(R.Dropping(t, l, p, idx), l, q) && (p == q ==> i == 0)
    requires |Node(t, l, q).entries| + |Node(t, l, q + 1).entries| <= Cap(c, l) + 1
    requires ParentAt(t.disk, t.levels, parent, i, l, q, pq) && i + 1 < |Ents(t.disk, parent.addr)|
    requires var t1 := R.Joining(R.Dropping(t, l, p, idx), l, q);
             && l < |t2.levels| && t2.levels[l] == t1.levels[l] && SameRow(t1.disk, t2.disk, t1.levels[l])
             && TrimmedTo(c, t1, l + 1, pq, i, t2)
    ensures TrimmedTo(c, t, l, p, idx, t2.(pool := t2.pool + [t.levels[l][q]]))
  {
    hide Flat, ParentAt, Ready, Trimmed, NodesOf, Joined, Siblings, Above;
    var t3 := t2.(pool := t2.pool + [t.levels[l][q]]);
    JoiningAbove(c, t, l, p, idx, q);
    JoinedRow(c, t, t2, l, p, idx, q);
    SiblingsOf(c, t, l, p, idx, q, parent, i, pq);
    AboveStep(t, l);
    AboveStep(t2, l);
    PoolAbove(t2, t3, l);
    TrimJoins(c, Above(t, l), l, p, idx, t.root, q, pq, i);
    assert Above(t, l)[0] == NodesOf(t.disk, t.levels[l]);
  }

  lemma PoolAbove(t: Tree, t': Tree, l: nat)
    requires t' == t.(pool := t'.pool)
    ensures Above(t', l) == Above(t, l)
  {
    AboveFrame(t, t', l);
  }

  /** The rows of two nodes that shared and of their parent. */
  lemma SharedRows(c: Caps, t: Tree, l: nat, p: nat, idx: nat, q: nat, ls: seq<Entry>, rs: seq<Entry>, pq: nat, i: nat)
    requires D.CanShare(c, t, l, p, idx, q, ls, rs, pq, i)
    ensures var t3 := R.Sharing(R.Dropping(t, l, p, idx), l, q, ls, rs, pq, i);
      && t3.levels == t.levels && t3.pool == t.pool && t3.root == t.root
      && NodesOf(t3.disk, t.levels[l]) == NodesOf(t.disk, t.levels[l])[q := ls][q + 1 := rs]
      && NodesOf(t3.disk, t.levels[l + 1]) == Rekeyed(NodesOf(t.disk, t.levels[l + 1]), pq, i, ls)
      && Above(t3, l + 2) == Above(t, l + 2)
  {
    hide Flat, Ready;
    D.SharingNodes(c, t, l, p, idx, q, ls, rs, pq, i);
    D.SharingUpperNodes(c, t, l, p, idx, q, ls, rs, pq, i);
    D.SharingAbove(c, t, l, p, idx, q, ls, rs, pq, i);
    AboveFrame(t, R.Sharing(R.Dropping(t, l, p, idx), l, q, ls, rs, pq, i), l + 2);
  }

  /** Nodes `q` and `q + 1` hold `ls` and `rs` after node `p` of them lost entry `idx` and one moved to it. */
  ghost predicate OneMoves(t: Tree, l: nat, p: nat, idx: nat, q: nat, ls: seq<Entry>, rs: seq<Entry>) {
    && IsNode(t, l, p) && idx < |Node(t, l, p).entries| && q + 1 < |t.levels[l]| && (p == q || p == q + 1)
    && var row := NodesOf(t.disk, t.levels[l])[p := RemoveAt(Node(t, l, p).entries, idx)];
    && row[q] != [] && row[q + 1] != []
    && ls != [] && row[q := ls][q + 1 := rs] == Moved(row, q, p != q)
  }

  lemma SharingTrims(c: Caps, t: Tree, l: nat, p: nat, idx: nat, q: nat, ls: seq<Entry>, rs: seq<Entry>,
          parent: View, i: nat, pq: nat)
    requires D.CanShare(c, t, l, p, idx, q, ls, rs, pq, i) && (p == q ==> i == 0)
    requires ParentAt(t.disk, t.levels, parent, i, l, q, pq) && i + 1 < |Ents(t.disk, parent.addr)|
    requires |Node(t, l, q).entries| + |Node(t, l, q + 1).entries| > Cap(c, l) + 1
    requires OneMoves(t, l, p, idx, q, ls, rs)
    ensures TrimmedTo(c, t, l, p, idx, R.Sharing(R.Dropping(t, l, p, idx), l, q, ls, rs, pq, i))
  {
    hide Flat, ParentAt, Ready, Trimmed, Siblings, Above, R.Sharing, MovedUp, MovedDown;
    var t3 := R.Sharing(R.Dropping(t, l, p, idx), l, q, ls, rs, pq, i);
    SiblingsOf(c, t, l, p, idx, q, parent, i, pq);
    SharedRows(c, t, l, p, idx, q, ls, rs, pq, i);
    AboveStep(t, l);
    AboveStep(t, l + 1);
    AboveStep(t3, l);
    AboveStep(t3, l + 1);
    var row := NodesOf(t.disk, t.levels[l])[p := RemoveAt(Node(t, l, p).entries, idx)];
    assert NodesOf(t.disk, t.levels[l])[q := ls][q + 1 := rs] == row[q := ls][q + 1 := rs];
    TrimShares(c, Above(t, l), l, p, idx, t.root, q, pq, i, Moved(row, q, p != q));
  }

  /** The highest entry of `q` moves to its right neighbour. */
  lemma HighestTrims(c: Caps, t: Tree, l: nat, p: nat, idx: nat, q: nat, parent: View, i: nat, pq: nat)
    requires R.Starved(c, t, l, p, idx, q) && p == q + 1
    requires ParentAt(t.disk, t.levels, parent, i, l, q, pq) && i + 1 < |Ents(t.disk, parent.addr)|
    requires R.Neighbours(R.Dropping(t, l, p, idx), l, q)
    requires var t0 := R.Dropping(t, l, p, idx); |Node(t0, l, q).entries| + |Node(t0, l, p).entries| > Cap(c, l)
    ensures R.CanMove(t, l, p, idx, q, parent, i, pq)
    ensures var t0 := R.Dropping(t, l, p, idx); var es, n := Node(t0, l, q).entries, |Node(t0, l, q).entries| - 1;
      && n > 0
      && var t3 := R.Sharing(t0, l, q, es[..n], [es[n]] + Node(t0, l, p).entries, pq, i);
         && R.Shrunk(OK, c, t, t3, l, R.RowWithout(t, l, p, idx)) && D.KeptDown(t, l, p, idx, t3)
         && TrimmedTo(c, t, l, p, idx, t3)
  {
    hide R.Shrunk, D.KeptDown, R.RowWithout, ParentAt, Ready, R.Sharing, D.CanShare, TrimmedTo, Flat;
    D.HighestMoves(c, t, l, p, idx, q, parent, i, pq);
    R.StarvedFacts(c, t, l, p, idx, q);
    R.StarvedNeighbours(c, t, l, p, idx, q);
    var t0 := R.Dropping(t, l, p, idx);
    var es := Node(t0, l, q).entries;
    SharingTrims(c, t, l, p, idx, q, es[..|es| - 1], [es[|es| - 1]] + Node(t0, l, p).entries, parent, i, pq);
  }

  /** The lowest entry of the right neighbour moves to the first child of a parent. */
  lemma LowestTrims(c: Caps, t: Tree, l: nat, p: nat, idx: nat, parent: View, pq: nat)
    requires R.Starved(c, t, l, p, idx, p)
    requires ParentAt(t.disk, t.levels, parent, 0, l, p, pq) && 1 < |Ents(t.disk, parent.addr)|
    requires R.Neighbours(R.Dropping(t, l, p, idx), l, p)
    requires var t0 := R.Dropping(t, l, p, idx); |Node(t0, l, p).entries| + |Node(t0, l, p + 1).entries| > Cap(c, l)
    ensures R.CanMove(t, l, p, idx, p, parent, 0, pq)
    ensures var t0 := R.Dropping(t, l, p, idx); var es := Node(t0, l, p + 1).entries;
      && es != []
      && var t3 := R.Sharing(t0, l, p, Node(t0, l, p).entries + [es[0]], es[1..], pq, 0);
         && R.Shrunk(OK, c, t, t3, l, R.RowWithout(t, l, p, idx)) && D.KeptDown(t, l, p, idx, t3)
         && TrimmedTo(c, t, l, p, idx, t3)
  {
    hide R.Shrunk, D.KeptDown, R.RowWithout, ParentAt, Ready, R.Sharing, D.CanShare, TrimmedTo, Flat;
    D.LowestMoves(c, t, l, p, idx, parent, 0, pq);
    R.StarvedFacts(c, t, l, p, idx, p);
    R.StarvedNeighbours(c, t, l, p, idx, p);
    var t0 := R.Dropping(t, l, p, idx);
    var es := Node(t0, l, p + 1).entries;
    SharingTrims(c, t, l, p, idx, p, Node(t0, l, p).entries + [es[0]], es[1..], parent, 0, pq);
  }

  // ---- Insertion ----

  lemma PlacedAbove(c: Caps, t: Tree, l: nat, p: nat, idx: nat, e: Entry)
    requires Ready(c, t, l) && IsNode(t, l, p) && idx <= |Node(t, l, p).entries| < Cap(c, l)
    ensures Above(I.Placing(t, l, p, idx, e), l)
         == [NodesOf(t.disk, t.levels[l])[p := InsertAt(Node(t, l, p).entries, idx, e)]] + Above(t, l + 1)
  {
    hide Flat, Blocks, BlocksOk, Shape;
    var t' := I.Placing(t, l, p, idx, e);
    O.PlaceFrame(c, t, l, p, idx, e);
    AboveStep(t', l);
    AboveFrame(t, t', l + 1);
    assert NodesOf(t'.disk, t.levels[l]) == NodesOf(t.disk, t.levels[l])[p := InsertAt(Node(t, l, p).entries, idx, e)];
  }

  lemma PlaceGrows(c: Caps, t: Tree, l: nat, p: nat, idx: nat, e: Entry)
    requires Ready(c, t, l) && IsNode(t, l, p) && idx <= |Node(t, l, p).entries| < Cap(c, l)
    ensures GrownTo(c, t, l, p, idx, e, I.Placing(t, l, p, idx, e))
  {
    hide Flat, Blocks, BlocksOk, Shape, GrownAbove, Above, I.Placing;
    PlacedAbove(c, t, l, p, idx, e);
    AboveStep(t, l);
  }

  /** Node `p` of a row has become two, the left one in `sib`. */
  lemma RowParted(d: Disk, d': Disk, row: seq<Address>, p: nat, sib: Address)
    requires p < |row|
    requires forall x :: 0 <= x < |row| && x != p ==> Ents(d', row[x]) == Ents(d, row[x])
    ensures NodesOf(d', InsertAt(row, p, sib)) == Two(NodesOf(d, row), p, Ents(d', sib), Ents(d', row[p]))
  {
    hide Ents;
    var row' := InsertAt(row, p, sib);
    assert row'[p] == sib && row'[p + 1] == row[p];
    assert forall x :: p + 1 < x < |row'| ==> row'[x] == row[x - 1];
  }

  /** The row of the two halves. */
  lemma HalvesRow(c: Caps, t: Tree, t2: Tree, l: nat, p: nat, sib: Address)
    requires O.Parted(t, t2, l, p, sib) && I.Split(OK, c, t, t2, l, p, sib)
    ensures var es := Node(t, l, p).entries; var n := |es| / 2;
            NodesOf(t2.disk, t2.levels[l]) == Two(NodesOf(t.disk, t.levels[l]), p, es[..n], es[n..])
  {
    hide Flat, Ready, NodesOf, Two, InsertAt;
    RowParted(t.disk, t2.disk, t.levels[l], p, sib);
  }

  /** A tree of which the upper levels are known is halved. */
  lemma HalvesWith(c: Caps, t: Tree, t2: Tree, l: nat, p: nat, sib: Address)
    requires O.Parted(t, t2, l, p, sib) && I.Split(OK, c, t, t2, l, p, sib) && |Node(t, l, p).entries| == Cap(c, l)
    requires Above(t2, l + 1) == GrownAbove(c, Above(t, l), l, p, t.pool, t.root)
    ensures HalvedTo(c, t, l, p, t2)
  {
    hide Flat, Ready, NodesOf, Two, GrownAbove, O.Parted;
    HalvesRow(c, t, t2, l, p, sib);
    AboveStep(t2, l);
  }

  lemma RootHalves(c: Caps, t: Tree, v: View, l: nat)
    requires I.CanHalve(c, t, l, 0) && l == |t.levels| - 1 && |t.pool| > 1 && v.Top?
    ensures var sib := t.pool[|t.pool| - 1];
            HalvedTo(c, t, l, 0, I.Crowning(I.Halving(t, l, 0), O.MidKey(t, l, 0), sib, t.levels[l][0]))
  {
    hide Flat, Blocks, BlocksOk, O.Parted, I.Split;
    var sib := t.pool[|t.pool| - 1];
    var t2 := I.Crowning(I.Halving(t, l, 0), O.MidKey(t, l, 0), sib, t.levels[l][0]);
    NodeFacts(c, t, l, 0);
    O.HalvedRoot(c, t, v, l);
    I.SplitOfRoot(c, t, l, O.MidKey(t, l, 0));
    AboveStep(t, l);
    AboveNone(t, l + 1);
    AboveStep(t2, l + 1);
    AboveNone(t2, l + 2);
    assert t2.levels[l + 1] == [t2.root];
    assert NodesOf(t2.disk, [t2.root]) == [Ents(t2.disk, t2.root)];
    HalvesWith(c, t, t2, l, 0, sib);
  }

  /** The levels above a halved node, before its parent knows. */
  lemma HalvingAbove(c: Caps, t: Tree, v: View, l: nat, p: nat, q: nat)
    requires I.CanHalve(c, t, l, p) && v.Child? && l + 1 < |t.levels|
    requires ParentAt(I.Halving(t, l, p).disk, I.Halving(t, l, p).levels, v.parent, v.index, l, p, q)
    ensures var t1 := I.Halving(t, l, p);
      && Above(t1, l + 1) == Above(t, l + 1) == Above(t, l)[1..] && |Above(t, l)| > 1
      && Above(t, l)[0] == NodesOf(t.disk, t.levels[l]) && Holder(Above(t, l)[1], p) == (q, v.index)
      && t1.pool == t.pool[..|t.pool| - 1] && t1.root == t.root
  {
    hide Flat, Shape, Blocks, BlocksOk;
    var t1 := I.Halving(t, l, p);
    O.UpperSame(c, t, l, p);
    AboveFrame(t, t1, l + 1);
    AboveStep(t, l);
    AboveStep(t, l + 1);
    AboveStep(t1, l + 1);
    assert ViewAt(t1.disk, t1.levels, v.parent, l + 1, q);
    HolderOf(t1.disk, t1.levels[l + 1], q, v.index);
  }

  lemma GrownAboveIs(c: Caps, up: seq<Nodes>, l: nat, p: nat, pool: seq<Address>, root: Address, q: nat, i: nat)
    requires |up| > 1 && p < |up[0]| && pool != [] && 0 < Cap(c, l) / 2 <= |up[0][p]| && Holder(up[1], p) == (q, i)
    ensures GrownAbove(c, up, l, p, pool, root)
         == Grown(c, up[1..], l + 1, q, i, Entry(up[0][p][Cap(c, l) / 2 - 1].key, pool[|pool| - 1]),
                  pool[..|pool| - 1], root)
  {}

  lemma HalvedAbove(c: Caps, t: Tree, v: View, l: nat, p: nat, q: nat, t2: Tree)
    requires I.CanHalve(c, t, l, p) && v.Child? && l + 1 < |t.levels|
    requires ParentAt(I.Halving(t, l, p).disk, I.Halving(t, l, p).levels, v.parent, v.index, l, p, q)
    requires var e := Entry(O.MidKey(t, l, p), t.pool[|t.pool| - 1]);
             GrownTo(c, I.Halving(t, l, p), l + 1, q, v.index, e, t2)
    ensures Above(t2, l + 1) == GrownAbove(c, Above(t, l), l, p, t.pool, t.root)
  {
    hide Flat, Shape, Blocks, BlocksOk, Holder, Above, I.Halving, ParentAt, Grown, GrownAbove, NodesOf;
    HalvingAbove(c, t, v, l, p, q);
    assert Above(t, l)[0][p] == Node(t, l, p).entries;
    GrownAboveIs(c, Above(t, l), l, p, t.pool, t.root, q, v.index);
  }

  lemma HalvedGrows(st: Status, c: Caps, t: Tree, v: View, l: nat, p: nat, q: nat, t2: Tree)
    requires I.CanHalve(c, t, l, p) && v.Child? && l + 1 < |t.levels|
    requires ParentAt(I.Halving(t, l, p).disk, I.Halving(t, l, p).levels, v.parent, v.index, l, p, q)
    requires var t1, e := I.Halving(t, l, p), Entry(O.MidKey(t, l, p), t.pool[|t.pool| - 1]);
             && I.Inserted(st, c, t1, t2, l + 1, p, e)
             && (st == OK ==> GrownTo(c, t1, l + 1, q, v.index, e, t2))
    ensures st == OK ==> HalvedTo(c, t, l, p, t2)
  {
    if st == OK {
      hide Ready, O.Parted, I.Split, I.Inserted, HalvedTo, Above, I.Halving, ParentAt, GrownTo, GrownAbove;
      HalvedAbove(c, t, v, l, p, q, t2);
      O.PartedUnderParent(c, t, l, p, t2);
      I.SplitUnderParent(st, c, t, t2, l, p, O.MidKey(t, l, p));
      HalvesWith(c, t, t2, l, p, t.pool[|t.pool| - 1]);
    }
  }

  lemma TwoPut(row: Nodes, p: nat, es: seq<Entry>, n: nat, idx: nat, e: Entry)
    requires p < |row| && n <= |es| && idx <= |es|
    ensures var halves := Two(row, p, es[..n], es[n..]);
            Two(row, p, LeftPart(es, n, idx, e), RightPart(es, n, idx, e)) ==
            if idx <= n then halves[p := InsertAt(es[..n], idx, e)]
            else halves[p + 1 := InsertAt(es[n..], idx - n, e)]
  {}

  /** Placing the pending entry of a split. */
  lemma PendingGrows(c: Caps, t: Tree, t2: Tree, l: nat, p: nat, sib: Address, idx: nat, e: Entry)
    requires CapsOk(c) && I.Split(OK, c, t, t2, l, p, sib) && HalvedTo(c, t, l, p, t2) && l < |t2.levels|
    requires idx <= |Node(t, l, p).entries| == Cap(c, l)
    ensures GrownTo(c, t, l, p, idx, e, I.PlacingPending(t2, l, p, idx, Cap(c, l) / 2, e))
  {
    hide Flat, Shape, GrownAbove, I.Placing, Above, Two, InsertAt, LeftPart, RightPart;
    var n := Cap(c, l) / 2;
    var x, i := if idx <= n then p else p + 1, if idx <= n then idx else idx - n;
    PlacedAbove(c, t2, l, x, i, e);
    AboveStep(t, l);
    AboveStep(t2, l);
    TwoPut(NodesOf(t.disk, t.levels[l]), p, Node(t, l, p).entries, n, idx, e);
    assert NodesOf(t2.disk, t2.levels[l]) == Above(t2, l)[0];
  }

  // ---- Insertions that fail ----

  lemma NothingStunted(c: Caps, t: Tree, l: nat, p: nat)
    requires t.pool == []
    ensures StuntedTo(c, t, l, p, t)
  {}

  /** The lower half of node `p` is gone, and its block is free again. */
  ghost function Undone(t: Tree, t2: Tree, sib: Address): Tree {
    t2.(levels := t.levels, pool := t2.pool + [sib])
  }

  /** The row that a split leaves behind when it is given up. */
  lemma UndoneRow(c: Caps, t: Tree, t2: Tree, l: nat, p: nat)
    requires I.CanHalve(c, t, l, p)
    requires var t1 := I.Halving(t, l, p); SameRow(t1.disk, t2.disk, t1.levels[l])
    ensures NodesOf(t2.disk, t.levels[l])
         == NodesOf(t.disk, t.levels[l])[p := UpperHalf(c, l, Node(t, l, p).entries)]
  {
    hide Flat, Shape, Blocks, BlocksOk;
    var t1, row := I.Halving(t, l, p), t.levels[l];
    O.HalvingKeepsNodes(c, t, l, p);
    I.HalvingRow(c, t, l, p);
    forall x: nat | x < |row| ensures Ents(t2.disk, row[x]) == Ents(t1.disk, row[x]) {
      assert t1.levels[l][if x < p then x else x + 1] == row[x];
    }
  }

  lemma UndoneBelow(c: Caps, t: Tree, t2: Tree, l: nat, p: nat)
    requires I.CanHalve(c, t, l, p)
    requires var t1 := I.Halving(t, l, p); forall k :: 0 <= k < l ==> SameRow(t1.disk, t2.disk, t1.levels[k])
    ensures forall k :: 0 <= k < l ==> SameRow(t.disk, t2.disk, t.levels[k])
  {
    hide Flat, Shape, Blocks, BlocksOk;
    I.HalvingFrame(c, t, l, p);
    forall k | 0 <= k < l ensures SameRow(t.disk, t2.disk, t.levels[k]) {
      assert I.Halving(t, l, p).levels[k] == t.levels[k];
      SameRowTwice(t.disk, I.Halving(t, l, p).disk, t2.disk, t.levels[k]);
    }
  }

  /** A root that cannot get a root above it. */
  lemma RootStunted(c: Caps, t: Tree, l: nat)
    requires I.CanHalve(c, t, l, 0) && l == |t.levels| - 1 && |t.pool| == 1
    ensures StuntedTo(c, t, l, 0, Undone(t, I.Halving(t, l, 0), t.pool[0]))
  {
    hide Flat, Shape, Blocks, BlocksOk, UpperHalf;
    var t1 := I.Halving(t, l, 0);
    var t3 := Undone(t, t1, t.pool[0]);
    UndoneRow(c, t, t1, l, 0);
    UndoneBelow(c, t, t1, l, 0);
    AboveStep(t, l);
    AboveNone(t, l + 1);
    AboveStep(t3, l);
    AboveNone(t3, l + 1);
  }

  lemma StuntedStep(c: Caps, up: seq<Nodes>, l: nat, p: nat, n: nat)
    requires |up| > 1 && n > 0 && p < |up[0]|
    ensures Stunted(c, up, l, p, n) == [up[0][p := UpperHalf(c, l, up[0][p])]]
                                     + Stunted(c, up[1..], l + 1, Holder(up[1], p).0, n - 1)
  {}

  /** A node whose parent could not take in the other half. */
  lemma ParentStunted(c: Caps, t: Tree, v: View, l: nat, p: nat, q: nat, t2: Tree)
    requires I.CanHalve(c, t, l, p) && v.Child? && l + 1 < |t.levels|
    requires ParentAt(I.Halving(t, l, p).disk, I.Halving(t, l, p).levels, v.parent, v.index, l, p, q)
    requires StuntedTo(c, I.Halving(t, l, p), l + 1, q, t2)
    ensures StuntedTo(c, t, l, p, Undone(t, t2, t.pool[|t.pool| - 1]))
    ensures t2.pool + [t.pool[|t.pool| - 1]] == t.pool
  {
    hide Flat, Shape, Blocks, BlocksOk, ParentAt, UpperHalf, Stunted, Above, Holder, NodesOf;
    var t1 := I.Halving(t, l, p);
    var t3 := Undone(t, t2, t.pool[|t.pool| - 1]);
    HalvingAbove(c, t, v, l, p, q);
    UndoneRow(c, t, t2, l, p);
    UndoneBelow(c, t, t2, l, p);
    StuntedStep(c, Above(t, l), l, p, |t.pool|);
    AboveStep(t3, l);
    AboveFrame(t2, t3, l + 1);
    assert Above(t, l)[0][p] == Node(t, l, p).entries by { NodeInRow(t, l, p); }
  }

  lemma NodeInRow(t: Tree, l: nat, p: nat)
    requires IsNode(t, l, p)
    ensures NodesOf(t.disk, t.levels[l])[p] == Node(t, l, p).entries
  {}
}
