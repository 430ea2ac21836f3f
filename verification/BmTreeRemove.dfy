/** What a removal at some level does to the tree: merging with a sibling, taking an entry from one, collapsing. */
module BmTreeRemoveLemmas {
  import opened BmTreeModel
  import opened BmTreeShape
  import opened BmTreeBlocks

  /**
   How a removal at level `l` ends, `row` being the in-order entries the level is left with. Usually the tree is
   well formed from level `l` upwards again; if level `l` was the root's and a single child remained, that child is
   the new root and level `l` is gone. The levels below were left alone and no block got lost.
   */
  ghost predicate Shrunk(st: Status, c: Caps, t: Tree, t': Tree, l: nat, row: seq<Entry>) {
    match st
    case OK =>
      && l < |t.levels| && l <= |t'.levels| <= |t.levels|
      && t'.levels[..l] == t.levels[..l]
      && (forall k :: 0 <= k < l ==> SameRow(t.disk, t'.disk, t.levels[k]))
      && Blocks(t'.pool, t'.levels) == Blocks(t.pool, t.levels)
      && (if l < |t'.levels| then Ready(c, t', l) && Row(t', l) == row else l > 0 && Recs(row) == [t'.root])
    case _ => false
  }

  lemma RemoveWithin<T>(pre: seq<T>, s: seq<T>, post: seq<T>, i: nat)
    requires i < |s|
    ensures pre + RemoveAt(s, i) + post == RemoveAt(pre + s + post, |pre| + i)
  {
    var all := pre + s + post;
    assert all[..|pre| + i] == pre + s[..i] && all[|pre| + i + 1..] == s[i + 1..] + post;
  }

  // ---- Removing from a node that stays full enough ----

  ghost function Dropping(t: Tree, l: nat, p: nat, idx: nat): Tree
    requires IsNode(t, l, p) && idx < |Node(t, l, p).entries|
  {
    t.(disk := Put(t.disk, t.levels[l][p], RemoveAt(Node(t, l, p).entries, idx)))
  }

  /** The entries level `l` is left with. */
  ghost function RowWithout(t: Tree, l: nat, p: nat, idx: nat): seq<Entry>
    requires IsNode(t, l, p) && idx < |Node(t, l, p).entries|
  {
    FlatAt(t.disk, t.levels[l], p);
    RemoveAt(Row(t, l), Before(t, l, p) + idx)
  }

  lemma RowWithoutSplit(t: Tree, l: nat, p: nat, idx: nat)
    requires IsNode(t, l, p) && idx < |Node(t, l, p).entries|
    ensures RowWithout(t, l, p, idx) == Flat(t.disk, t.levels[l][..p]) + RemoveAt(Node(t, l, p).entries, idx)
                                      + Flat(t.disk, t.levels[l][p + 1..])
  {
    FlatAt(t.disk, t.levels[l], p);
    RemoveWithin(Flat(t.disk, t.levels[l][..p]), Node(t, l, p).entries, Flat(t.disk, t.levels[l][p + 1..]), idx);
  }

  lemma Dropped(c: Caps, t: Tree, l: nat, p: nat, idx: nat)
    requires Ready(c, t, l) && IsNode(t, l, p) && idx < |Node(t, l, p).entries|
    requires l < |t.levels| - 1 ==> |Node(t, l, p).entries| > Cap(c, l) / 2
    requires l == |t.levels| - 1 && l > 0 ==> |Node(t, l, p).entries| > 2
    ensures Shrunk(OK, c, t, Dropping(t, l, p, idx), l, RowWithout(t, l, p, idx))
  {
    NodeFacts(c, t, l, p);
    var es := RemoveAt(Node(t, l, p).entries, idx);
    PutEntries(c, t.disk, t.levels, t.root, l, p, es);
    assert LevelOk(c, t.disk, t.levels, l);
    RowPutFlat(c, t.disk, t.levels[l], l, l == |t.levels| - 1, p, es);
    RowWithoutSplit(t, l, p, idx);
    RowsApart(t.pool, t.levels, l, p);
  }

  // ---- The root gives way to its only child ----

  ghost function Collapsing(t: Tree, idx: nat): Tree
    requires t.levels != [] && Ents(t.disk, t.root) != [] && idx <= 1 < |Ents(t.disk, t.root)|
  {
    Tree(t.disk, t.levels[..|t.levels| - 1], Ents(t.disk, t.root)[1 - idx].rec, t.pool + [t.root])
  }

  lemma Collapsed(c: Caps, t: Tree, l: nat, idx: nat)
    requires Ready(c, t, l) && 0 < l == |t.levels| - 1 && |Ents(t.disk, t.root)| == 2 && idx <= 1
    ensures IsNode(t, l, 0) && Node(t, l, 0).entries == Ents(t.disk, t.root)
    ensures Shrunk(OK, c, t, Collapsing(t, idx), l, RowWithout(t, l, 0, idx))
  {
    NodeFacts(c, t, l, 0);
    DropTop(t.pool, t.levels, t.root);
    RowWithoutSplit(t, l, 0, idx);
  }

  // ---- Two neighbours of a row ----

  ghost predicate Neighbours(t: Tree, l: nat, q: nat) {
    IsNode(t, l, q) && IsNode(t, l, q + 1)
  }

  /** The right neighbour gets the entries of both and the left one's place in the chain. */
  function Joined(d: Disk, left: Address, right: Address, es: seq<Entry>): Disk
    requires left in d && right in d
  {
    d[right := Block(d[right].level, es, d[left].prev)]
  }

  lemma JoinedRow(c: Caps, d: Disk, row: seq<Address>, l: nat, q: nat, es: seq<Entry>)
    requires CapsOk(c) && RowOk(c, d, row, l, false) && q + 1 < |row| && row[q] in d && row[q + 1] in d
    requires Cap(c, l) / 2 <= |es| <= Cap(c, l)
    ensures RowOk(c, Joined(d, row[q], row[q + 1], es), RemoveAt(row, q), l, false)
  {
    Distinct(c, d, row, l, false);
    var d', row' := Joined(d, row[q], row[q + 1], es), RemoveAt(row, q);
    forall x: nat | x < |row'| ensures NodeOk(c, d', row', l, false, x) {
      JoinedNode(c, d, row, l, q, es, x);
    }
    forall x: nat, y: nat | x < y < |row'| ensures Differ(row', x, y) {}
  }

  lemma JoinedNode(c: Caps, d: Disk, row: seq<Address>, l: nat, q: nat, es: seq<Entry>, x: nat)
    requires CapsOk(c) && RowOk(c, d, row, l, false) && q + 1 < |row| && row[q] in d && row[q + 1] in d
    requires forall y, z :: 0 <= y < |row| && 0 <= z < |row| && y != z ==> row[y] != row[z]
    requires Cap(c, l) / 2 <= |es| <= Cap(c, l) && x + 1 < |row|
    ensures NodeOk(c, Joined(d, row[q], row[q + 1], es), RemoveAt(row, q), l, false, x)
  {
    var row' := RemoveAt(row, q);
    var was := if x < q then x else x + 1;
    assert NodeOk(c, d, row, l, false, was) && NodeOk(c, d, row, l, false, q);
    assert row'[x] == row[was];
    if x > 0 {
      assert row'[x - 1] == row[if x - 1 < q then x - 1 else x];
    }
  }

  lemma JoinedFlat(d: Disk, row: seq<Address>, q: nat, es: seq<Entry>)
    requires q + 1 < |row| && row[q] in d && row[q + 1] in d
    requires forall y, z :: 0 <= y < |row| && 0 <= z < |row| && y != z ==> row[y] != row[z]
    ensures Flat(Joined(d, row[q], row[q + 1], es), RemoveAt(row, q))
         == Flat(d, row[..q]) + es + Flat(d, row[q + 2..])
  {
    var d', row' := Joined(d, row[q], row[q + 1], es), RemoveAt(row, q);
    assert row'[..q] == row[..q] && row'[q] == row[q + 1] && row'[q + 1..] == row[q + 2..];
    FlatAt(d', row', q);
    FlatFrame(d, d', row[..q]);
    FlatFrame(d, d', row[q + 2..]);
  }

  /** Both neighbours get new entries. */
  function Shared(d: Disk, left: Address, right: Address, ls: seq<Entry>, rs: seq<Entry>): Disk
    requires left in d && right in d
  {
    Put(Put(d, left, ls), right, rs)
  }

  lemma SharedRow(c: Caps, d: Disk, row: seq<Address>, l: nat, q: nat, ls: seq<Entry>, rs: seq<Entry>)
    requires RowOk(c, d, row, l, false) && q + 1 < |row| && row[q] in d && row[q + 1] in d
    requires Cap(c, l) / 2 <= |ls| <= Cap(c, l) && Cap(c, l) / 2 <= |rs| <= Cap(c, l)
    ensures RowOk(c, Shared(d, row[q], row[q + 1], ls, rs), row, l, false)
    ensures Flat(Shared(d, row[q], row[q + 1], ls, rs), row) == Flat(d, row[..q]) + ls + rs + Flat(d, row[q + 2..])
  {
    RowPut(c, d, row, l, false, q, ls);
    var d1 := Put(d, row[q], ls);
    RowPut(c, d1, row, l, false, q + 1, rs);
    Distinct(c, d, row, l, false);
    SharedFlat(d, row, q, ls, rs);
  }

  lemma SharedFlat(d: Disk, row: seq<Address>, q: nat, ls: seq<Entry>, rs: seq<Entry>)
    requires q + 1 < |row| && row[q] in d && row[q + 1] in d
    requires forall y, z :: 0 <= y < |row| && 0 <= z < |row| && y != z ==> row[y] != row[z]
    ensures Flat(Shared(d, row[q], row[q + 1], ls, rs), row) == Flat(d, row[..q]) + ls + rs + Flat(d, row[q + 2..])
  {
    hide Flat;
    var d' := Shared(d, row[q], row[q + 1], ls, rs);
    SharedElsewhere(d, row, q, ls, rs);
    assert row == row[..q] + [row[q], row[q + 1]] + row[q + 2..];
    FlatThree(d', row[..q], [row[q], row[q + 1]], row[q + 2..]);
    FlatTwo(d', row[q], row[q + 1]);
  }

  lemma SharedElsewhere(d: Disk, row: seq<Address>, q: nat, ls: seq<Entry>, rs: seq<Entry>)
    requires q + 1 < |row| && row[q] in d && row[q + 1] in d
    requires forall y, z :: 0 <= y < |row| && 0 <= z < |row| && y != z ==> row[y] != row[z]
    ensures Flat(Shared(d, row[q], row[q + 1], ls, rs), row[..q]) == Flat(d, row[..q])
    ensures Flat(Shared(d, row[q], row[q + 1], ls, rs), row[q + 2..]) == Flat(d, row[q + 2..])
  {
    hide Flat;
    FlatFrame(d, Shared(d, row[q], row[q + 1], ls, rs), row[..q]);
    FlatFrame(d, Shared(d, row[q], row[q + 1], ls, rs), row[q + 2..]);
  }

  // ---- Joining two neighbours ----

  /** Node `q + 1` of level `l` has taken over everything from node `q`, the levels above do not know yet. */
  ghost function Joining(t: Tree, l: nat, q: nat): Tree
    requires Neighbours(t, l, q)
  {
    var row := t.levels[l];
    Tree(Joined(t.disk, row[q], row[q + 1], Node(t, l, q).entries + Node(t, l, q + 1).entries),
         t.levels[l := RemoveAt(row, q)], t.root, t.pool)
  }

  /** Node `p` loses an entry it cannot spare, `q` and `q + 1` are that node and the sibling it turns to. */
  ghost predicate Starved(c: Caps, t: Tree, l: nat, p: nat, idx: nat, q: nat) {
    && Ready(c, t, l) && l + 1 < |t.levels|
    && Neighbours(t, l, q) && (p == q || p == q + 1)
    && idx < |Node(t, l, p).entries| == Cap(c, l) / 2
  }

  lemma StarvedNeighbours(c: Caps, t: Tree, l: nat, p: nat, idx: nat, q: nat)
    requires Starved(c, t, l, p, idx, q)
    ensures var t' := Dropping(t, l, p, idx); var es := RemoveAt(Node(t, l, p).entries, idx);
            && Neighbours(t', l, q)
            && Node(t', l, p).entries == es
            && (p == q ==> Node(t', l, q + 1).entries == Node(t, l, q + 1).entries)
            && (p == q + 1 ==> Node(t', l, q).entries == Node(t, l, q).entries)
  {
    assert LevelOk(c, t.disk, t.levels, l);
    Distinct(c, t.disk, t.levels[l], l, false);
  }

  lemma StarvedFacts(c: Caps, t: Tree, l: nat, p: nat, idx: nat, q: nat)
    requires Starved(c, t, l, p, idx, q)
    ensures Ready(c, t, l) && CapsOk(c) && l + 1 < |t.levels| && IsNode(t, l, p) && idx < |Node(t, l, p).entries|
    ensures Neighbours(t, l, q) && Neighbours(Dropping(t, l, p, idx), l, q)
    ensures Node(Dropping(t, l, p, idx), l, q + 1).level == l
    ensures |Node(Dropping(t, l, p, idx), l, p).entries| == Cap(c, l) / 2 - 1
    ensures |Node(t, l, q).entries| + |Node(t, l, q + 1).entries|
         == |Node(Dropping(t, l, p, idx), l, q).entries| + |Node(Dropping(t, l, p, idx), l, q + 1).entries| + 1
  {
    StarvedNeighbours(c, t, l, p, idx, q);
    NodeFacts(c, t, l, q + 1);
  }

  lemma StarvedRow(c: Caps, t: Tree, l: nat, p: nat, idx: nat, q: nat)
    requires Starved(c, t, l, p, idx, q)
    ensures Neighbours(Dropping(t, l, p, idx), l, q)
    ensures var t' := Dropping(t, l, p, idx); var row := t.levels[l];
            RowWithout(t, l, p, idx) == Flat(t.disk, row[..q])
               + (Node(t', l, q).entries + Node(t', l, q + 1).entries) + Flat(t.disk, row[q + 2..])
  {
    hide Ready, Flat, RowWithout, RemoveAt, Dropping;
    var d, row := t.disk, t.levels[l];
    StarvedNeighbours(c, t, l, p, idx, q);
    RowWithoutSplit(t, l, p, idx);
    if p == q {
      AfterNext(d, row, q);
    } else {
      FlatAt(d, row, q);
    }
  }

  lemma AfterNext(d: Disk, row: seq<Address>, q: nat)
    requires q + 1 < |row|
    ensures Flat(d, row[q + 1..]) == Ents(d, row[q + 1]) + Flat(d, row[q + 2..])
  {
    assert row[q + 1..][1..] == row[q + 2..];
  }

  lemma JoiningRow(c: Caps, t: Tree, l: nat, p: nat, idx: nat, q: nat)
    requires Starved(c, t, l, p, idx, q)
    requires |Node(t, l, q).entries| + |Node(t, l, q + 1).entries| <= Cap(c, l) + 1
    ensures Neighbours(Dropping(t, l, p, idx), l, q)
    ensures var t1 := Joining(Dropping(t, l, p, idx), l, q);
            RowOk(c, t1.disk, t1.levels[l], l, false) && Row(t1, l) == RowWithout(t, l, p, idx)
  {
    hide Blocks, BlocksOk, Flat, RowWithout;
    var t0, row := Dropping(t, l, p, idx), t.levels[l];
    StarvedNeighbours(c, t, l, p, idx, q);
    StarvedRow(c, t, l, p, idx, q);
    NodeFacts(c, t, l, q);
    NodeFacts(c, t, l, q + 1);
    assert LevelOk(c, t.disk, t.levels, l);
    var es := Node(t0, l, q).entries + Node(t0, l, q + 1).entries;
    Distinct(c, t.disk, row, l, false);
    JoinedRow(c, t.disk, row, l, q, es);
    JoinedFlat(t.disk, row, q, es);
    var d1 := Joined(t.disk, row[q], row[q + 1], es);
    assert SameRow(d1, Joined(t0.disk, row[q], row[q + 1], es), RemoveAt(row, q));
    RowFrame(c, d1, Joined(t0.disk, row[q], row[q + 1], es), RemoveAt(row, q), l, false);
  }

  lemma JoiningFrame(c: Caps, t: Tree, l: nat, p: nat, idx: nat, q: nat)
    requires Starved(c, t, l, p, idx, q)
    ensures Neighbours(Dropping(t, l, p, idx), l, q)
    ensures var t1 := Joining(Dropping(t, l, p, idx), l, q);
            && (forall k :: 0 <= k < |t.levels| && k != l ==> SameRow(t.disk, t1.disk, t.levels[k]))
            && Ready(c, t1, l + 1)
            && Row(t1, l + 1) == Row(t, l + 1) && Recs(Row(t1, l + 1)) == t.levels[l]
            && Blocks(t1.pool, t1.levels) + multiset{t.levels[l][q]} == Blocks(t.pool, t.levels)
  {
    StarvedNeighbours(c, t, l, p, idx, q);
    var t1 := Joining(Dropping(t, l, p, idx), l, q);
    OtherRowsSame(t.pool, t.levels, t.disk, t1.disk, l);
    LeaveRow(t.pool, t.levels, l, q);
    assert LevelOk(c, t.disk, t.levels, l);
    ShapeFrame(c, t.disk, t1.disk, t.levels, t1.levels, t.root, l + 1);
    FewerBlocks(Blocks(t1.pool, t1.levels), t.levels[l][q], Blocks(t.pool, t.levels));
  }

  lemma FewerBlocks(blocks: multiset<Address>, a: Address, all: multiset<Address>)
    requires blocks + multiset{a} == all && BlocksOk(all)
    ensures BlocksOk(blocks)
  {
    forall x ensures blocks[x] <= 1 && (x == 0 ==> x !in blocks) {
      assert (blocks + multiset{a})[x] >= blocks[x];
    }
  }

  /** The parent has dropped the adopted node, and its block is free. */
  lemma JoinedDone(c: Caps, t: Tree, t2: Tree, l: nat, p: nat, idx: nat, q: nat)
    requires Starved(c, t, l, p, idx, q)
    requires |Node(t, l, q).entries| + |Node(t, l, q + 1).entries| <= Cap(c, l) + 1
    requires Neighbours(Dropping(t, l, p, idx), l, q) && q < |Row(t, l + 1)|
    requires Shrunk(OK, c, Joining(Dropping(t, l, p, idx), l, q), t2, l + 1, RemoveAt(Row(t, l + 1), q))
    ensures Shrunk(OK, c, t, t2.(pool := t2.pool + [t.levels[l][q]]), l, RowWithout(t, l, p, idx))
  {
    hide RowOk, LevelOk, NodeOk, Blocks, BlocksOk;
    var t1, left := Joining(Dropping(t, l, p, idx), l, q), t.levels[l][q];
    var t3 := t2.(pool := t2.pool + [left]);
    JoiningFrame(c, t, l, p, idx, q);
    JoiningRow(c, t, l, p, idx, q);
    var row := t1.levels[l];
    assert t2.levels[l] == t2.levels[..l + 1][l] == t1.levels[..l + 1][l] == row;
    assert t2.levels[..l] == t2.levels[..l + 1][..l] == t1.levels[..l + 1][..l] == t.levels[..l];
    RowFrame(c, t1.disk, t2.disk, row, l, false);
    JoinedBlocks(t, t1, t2, left);
    assert Recs(RemoveAt(Row(t, l + 1), q)) == row by {
      RemoveRecs(Row(t, l + 1), q);
    }
    JoinedShape(c, t2, l, row);
    forall k | 0 <= k < l ensures SameRow(t.disk, t3.disk, t.levels[k]) {
      assert t1.levels[k] == t.levels[k];
      SameRowTwice(t.disk, t1.disk, t2.disk, t.levels[k]);
    }
  }

  lemma RemoveRecs(es: seq<Entry>, i: nat)
    requires i < |es|
    ensures Recs(RemoveAt(es, i)) == RemoveAt(Recs(es), i)
  {}

  lemma JoinedBlocks(t: Tree, t1: Tree, t2: Tree, left: Address)
    requires Blocks(t1.pool, t1.levels) + multiset{left} == Blocks(t.pool, t.levels)
    requires Blocks(t2.pool, t2.levels) == Blocks(t1.pool, t1.levels)
    ensures Blocks(t2.pool + [left], t2.levels) == Blocks(t.pool, t.levels)
  {}

  lemma JoinedShape(c: Caps, t: Tree, l: nat, row: seq<Address>)
    requires CapsOk(c) && l < |t.levels| && t.levels[l] == row && RowOk(c, t.disk, row, l, false)
    requires if l + 1 < |t.levels| then Ready(c, t, l + 1) && Recs(Row(t, l + 1)) == row else row == [t.root]
    ensures Shape(c, t.disk, t.levels, t.root, l)
  {
    var top := l == |t.levels| - 1;
    forall x: nat | x < |row| ensures NodeOk(c, t.disk, row, l, top, x) {
      assert NodeOk(c, t.disk, row, l, false, x);
    }
    forall k | l <= k < |t.levels| ensures LevelOk(c, t.disk, t.levels, k) {
      assert k > l ==> LevelOk(c, t.disk, t.levels, k);
    }
  }

  // ---- Taking one entry from a neighbour ----

  /** Nodes `q` and `q + 1` hold `ls` and `rs`, and the parent's key for `q` is the last of `ls`. */
  ghost function Sharing(t: Tree, l: nat, q: nat, ls: seq<Entry>, rs: seq<Entry>, pq: nat, i: nat): Tree
    requires Neighbours(t, l, q) && ls != []
    requires IsNode(t, l + 1, pq) && i < |Node(t, l + 1, pq).entries|
    requires t.levels[l + 1][pq] != t.levels[l][q] && t.levels[l + 1][pq] != t.levels[l][q + 1]
  {
    var es := Node(t, l + 1, pq).entries;
    var d := Shared(t.disk, t.levels[l][q], t.levels[l][q + 1], ls, rs);
    t.(disk := Put(d, t.levels[l + 1][pq], es[i := Entry(ls[|ls| - 1].key, es[i].rec)]))
  }

  lemma SharedDone(c: Caps, t: Tree, l: nat, p: nat, idx: nat, q: nat, ls: seq<Entry>, rs: seq<Entry>, pq: nat, i: nat)
    requires Starved(c, t, l, p, idx, q)
    requires var t0 := Dropping(t, l, p, idx);
             && Neighbours(t0, l, q)
             && ls + rs == Node(t0, l, q).entries + Node(t0, l, q + 1).entries
    requires Cap(c, l) / 2 <= |ls| <= Cap(c, l) && Cap(c, l) / 2 <= |rs| <= Cap(c, l)
    requires IsNode(t, l + 1, pq) && i < |Node(t, l + 1, pq).entries|
    ensures t.levels[l + 1][pq] != t.levels[l][q] && t.levels[l + 1][pq] != t.levels[l][q + 1]
    ensures Shrunk(OK, c, t, Sharing(Dropping(t, l, p, idx), l, q, ls, rs, pq, i), l, RowWithout(t, l, p, idx))
  {
    LevelsApart(c, t.disk, t.levels, t.root, l, l + 1, pq, l, q);
    LevelsApart(c, t.disk, t.levels, t.root, l, l + 1, pq, l, q + 1);
    var row, t0 := t.levels[l], Dropping(t, l, p, idx);
    var d1 := Shared(t.disk, row[q], row[q + 1], ls, rs);
    assert d1 == Shared(t0.disk, row[q], row[q + 1], ls, rs);
    var t1 := t.(disk := d1);
    SharedReady(c, t, l, p, idx, q, ls, rs);
    var parent := t.levels[l + 1][pq];
    var es := Node(t, l + 1, pq).entries;
    assert Node(t1, l + 1, pq).entries == es by { assert SameRow(t.disk, d1, t.levels[l + 1]); }
    assert Node(t0, l + 1, pq).entries == es;
    KeyChange(c, t1, l, pq, es[i := Entry(ls[|ls| - 1].key, es[i].rec)]);
    var t2 := Sharing(t0, l, q, ls, rs, pq, i);
    forall k | 0 <= k < l ensures SameRow(t.disk, t2.disk, t.levels[k]) {
      SameRowTwice(t.disk, d1, t2.disk, t.levels[k]);
    }
  }

  lemma SharedFrame(c: Caps, t: Tree, l: nat, q: nat, ls: seq<Entry>, rs: seq<Entry>)
    requires Ready(c, t, l) && Neighbours(t, l, q)
    ensures forall k :: 0 <= k < |t.levels| && k != l ==>
              SameRow(t.disk, Shared(t.disk, t.levels[l][q], t.levels[l][q + 1], ls, rs), t.levels[k])
  {
    OtherRowsSame(t.pool, t.levels, t.disk, Shared(t.disk, t.levels[l][q], t.levels[l][q + 1], ls, rs), l);
  }

  lemma SharedReady(c: Caps, t: Tree, l: nat, p: nat, idx: nat, q: nat, ls: seq<Entry>, rs: seq<Entry>)
    requires Starved(c, t, l, p, idx, q)
    requires var t0 := Dropping(t, l, p, idx);
             && Neighbours(t0, l, q)
             && ls + rs == Node(t0, l, q).entries + Node(t0, l, q + 1).entries
    requires Cap(c, l) / 2 <= |ls| <= Cap(c, l) && Cap(c, l) / 2 <= |rs| <= Cap(c, l)
    ensures var t1 := t.(disk := Shared(t.disk, t.levels[l][q], t.levels[l][q + 1], ls, rs));
            && Ready(c, t1, l) && Row(t1, l) == RowWithout(t, l, p, idx)
            && forall k :: 0 <= k < |t.levels| && k != l ==> SameRow(t.disk, t1.disk, t.levels[k])
  {
    hide NodeOk, Blocks, BlocksOk, SameRow, RowWithout;
    var d1 := Shared(t.disk, t.levels[l][q], t.levels[l][q + 1], ls, rs);
    SharedFrame(c, t, l, q, ls, rs);
    SharedRowWithout(c, t, l, p, idx, q, ls, rs);
    assert LevelOk(c, t.disk, t.levels, l);
    ShapeFrame(c, t.disk, d1, t.levels, t.levels, t.root, l + 1);
    forall k | l <= k < |t.levels| ensures LevelOk(c, d1, t.levels, k) {
      assert k > l ==> LevelOk(c, d1, t.levels, k);
    }
  }

  lemma SharedRowWithout(c: Caps, t: Tree, l: nat, p: nat, idx: nat, q: nat, ls: seq<Entry>, rs: seq<Entry>)
    requires Starved(c, t, l, p, idx, q)
    requires var t0 := Dropping(t, l, p, idx);
             && Neighbours(t0, l, q)
             && ls + rs == Node(t0, l, q).entries + Node(t0, l, q + 1).entries
    requires Cap(c, l) / 2 <= |ls| <= Cap(c, l) && Cap(c, l) / 2 <= |rs| <= Cap(c, l)
    ensures var row := t.levels[l]; var d1 := Shared(t.disk, row[q], row[q + 1], ls, rs);
            RowOk(c, d1, row, l, false) && Flat(d1, row) == RowWithout(t, l, p, idx)
  {
    hide NodeOk, Shape, Blocks, BlocksOk, RowWithout, Flat, Shared, RowOk;
    var row := t.levels[l];
    StarvedRow(c, t, l, p, idx, q);
    StarvedRowOk(c, t, l, p, idx, q);
    SharedRow(c, t.disk, row, l, q, ls, rs);
    assert Flat(t.disk, row[..q]) + ls + rs == Flat(t.disk, row[..q]) + (ls + rs);
  }

  lemma StarvedRowOk(c: Caps, t: Tree, l: nat, p: nat, idx: nat, q: nat)
    requires Starved(c, t, l, p, idx, q)
    ensures RowOk(c, t.disk, t.levels[l], l, false)
  {
    assert LevelOk(c, t.disk, t.levels, l);
  }

  /** Changing keys in a parent, but no child. */
  lemma KeyChange(c: Caps, t: Tree, l: nat, pq: nat, es: seq<Entry>)
    requires Ready(c, t, l) && IsNode(t, l + 1, pq) && Recs(es) == Recs(Node(t, l + 1, pq).entries)
    ensures var t' := t.(disk := Put(t.disk, t.levels[l + 1][pq], es));
            && Ready(c, t', l) && Row(t', l) == Row(t, l)
            && forall k :: 0 <= k < |t.levels| && k != l + 1 ==> SameRow(t.disk, t'.disk, t.levels[k])
  {
    var row, top := t.levels[l + 1], l + 1 == |t.levels| - 1;
    var d' := Put(t.disk, row[pq], es);
    assert LevelOk(c, t.disk, t.levels, l) && LevelOk(c, t.disk, t.levels, l + 1);
    assert NodeOk(c, t.disk, row, l + 1, top, pq);
    assert |es| == |Recs(es)|;
    assert Shape(c, t.disk, t.levels, t.root, l + 1);
    PutEntries(c, t.disk, t.levels, t.root, l + 1, pq, es);
    OtherRowsSame(t.pool, t.levels, t.disk, d', l + 1);
    RowFrame(c, t.disk, d', t.levels[l], l, false);
    KeyChangeRecs(c, t.disk, row, l + 1, top, pq, es);
    forall k | l <= k < |t.levels| ensures LevelOk(c, d', t.levels, k) {
      assert k > l ==> LevelOk(c, d', t.levels, k);
    }
  }

  lemma KeyChangeRecs(c: Caps, d: Disk, row: seq<Address>, l: nat, top: bool, p: nat, es: seq<Entry>)
    requires RowOk(c, d, row, l, top) && p < |row| && row[p] in d && Recs(es) == Recs(d[row[p]].entries)
    ensures Recs(Flat(Put(d, row[p], es), row)) == Recs(Flat(d, row))
  {
    RowPutFlat(c, d, row, l, top, p, es);
    FlatAt(d, row, p);
    RecsConcat(Flat(d, row[..p]), es, Flat(d, row[p + 1..]));
    RecsConcat(Flat(d, row[..p]), d[row[p]].entries, Flat(d, row[p + 1..]));
  }

  lemma RecsConcat(a: seq<Entry>, b: seq<Entry>, c: seq<Entry>)
    ensures Recs(a + b + c) == Recs(a) + Recs(b) + Recs(c)
  {}

  // ---- The parent of a node that lost an entry it cannot spare ----

  ghost predicate Drained(c: Caps, t: Tree, l: nat, p: nat, idx: nat) {
    && Ready(c, t, l) && l + 1 < |t.levels| && IsNode(t, l, p)
    && idx < |Node(t, l, p).entries| == Cap(c, l) / 2
  }

  lemma ParentOfDrained(c: Caps, t: Tree, l: nat, p: nat, idx: nat, v: View) returns (pq: nat)
    requires Drained(c, t, l, p, idx) && v.Child? && ViewAt(t.disk, t.levels, v, l, p)
    ensures ParentAt(t.disk, t.levels, v.parent, v.index, l, p, pq)
    ensures var t0 := Dropping(t, l, p, idx);
            && IsNode(t0, l + 1, pq) && v.parent.addr == t.levels[l + 1][pq]
            && Node(t0, l + 1, pq) == Node(t, l + 1, pq)
            && |Node(t, l + 1, pq).entries| >= 2
  {
    pq :| ParentAt(t.disk, t.levels, v.parent, v.index, l, p, pq);
    assert ViewAt(t.disk, t.levels, v.parent, l + 1, pq);
    assert LevelOk(c, t.disk, t.levels, l);
    NodeFacts(c, t, l + 1, pq);
    LevelsApart(c, t.disk, t.levels, t.root, l, l + 1, pq, l, p);
  }

  lemma LeftOfDrained(c: Caps, t: Tree, l: nat, p: nat, idx: nat, v: View, pq: nat)
    requires Drained(c, t, l, p, idx) && v.Child?
    requires ParentAt(t.disk, t.levels, v.parent, v.index, l, p, pq) && v.index > 0
    ensures p > 0 && Starved(c, t, l, p, idx, p - 1)
    ensures t.levels[l][p - 1] == Ents(t.disk, v.parent.addr)[v.index - 1].rec
    ensures ParentAt(t.disk, t.levels, v.parent, v.index - 1, l, p - 1, pq)
  {
    assert LevelOk(c, t.disk, t.levels, l);
    ChildOf(c, t, l, pq, v.index - 1);
    NodeFacts(c, t, l, p - 1);
  }

  lemma RightOfDrained(c: Caps, t: Tree, l: nat, p: nat, idx: nat, v: View, pq: nat)
    requires Drained(c, t, l, p, idx) && v.Child?
    requires ParentAt(t.disk, t.levels, v.parent, v.index, l, p, pq) && v.index < |Ents(t.disk, v.parent.addr)| - 1
    ensures Starved(c, t, l, p, idx, p)
    ensures t.levels[l][p + 1] == Ents(t.disk, v.parent.addr)[v.index + 1].rec
  {
    assert LevelOk(c, t.disk, t.levels, l);
    ChildOf(c, t, l, pq, v.index + 1);
    NodeFacts(c, t, l, p + 1);
  }

  /** A parent's view survives a change in the levels below it. */
  lemma ParentStays(c: Caps, t: Tree, t1: Tree, parent: View, index: nat, l: nat, q: nat, pq: nat)
    requires Ready(c, t, l) && l + 1 < |t.levels| && ParentAt(t.disk, t.levels, parent, index, l, q, pq)
    requires |t1.levels| == |t.levels| && forall k :: l < k < |t.levels| ==> t1.levels[k] == t.levels[k]
    requires forall k :: 0 <= k < |t.levels| && k != l ==> SameRow(t.disk, t1.disk, t.levels[k])
    ensures ParentAt(t1.disk, t1.levels, parent, index, l, q, pq)
  {
    forall k, x | l + 1 <= k < |t.levels| && 0 <= x < |t.levels[k]|
      ensures Ents(t1.disk, t.levels[k][x]) == Ents(t.disk, t.levels[k][x]) {
      assert LevelOk(c, t.disk, t.levels, k) && NodeOk(c, t.disk, t.levels[k], k, k == |t.levels| - 1, x);
      assert SameRow(t.disk, t1.disk, t.levels[k]);
    }
    ViewFrame(t.disk, t1.disk, t.levels, t1.levels, parent, l + 1, pq);
    FlatFrame(t.disk, t1.disk, t.levels[l + 1][..pq]);
  }

  lemma ParentRow(t: Tree, parent: View, index: nat, l: nat, q: nat, pq: nat)
    requires l + 1 < |t.levels| && ParentAt(t.disk, t.levels, parent, index, l, q, pq)
    ensures IsNode(t, l + 1, pq) && index < |Node(t, l + 1, pq).entries|
    ensures q < |Row(t, l + 1)| && RowWithout(t, l + 1, pq, index) == RemoveAt(Row(t, l + 1), q)
  {
    FlatAt(t.disk, t.levels[l + 1], pq);
  }

  lemma NeverFails(st: Status, c: Caps, t: Tree, t': Tree, l: nat, row: seq<Entry>)
    requires Shrunk(st, c, t, t', l, row)
    ensures st == OK
  {}

  /** A removal above a joined row leaves that row alone. */
  lemma JoinedBelow(st: Status, c: Caps, t1: Tree, t2: Tree, l: nat, row: seq<Entry>)
    requires Shrunk(st, c, t1, t2, l + 1, row)
    ensures l < |t2.levels| && l < |t1.levels| && t2.levels[l] == t1.levels[l]
    ensures SameRow(t1.disk, t2.disk, t1.levels[l])
  {
    assert t2.levels[l] == t2.levels[..l + 1][l];
  }

  /** The parent and the two neighbours are three blocks, and the first loss left the parent alone. */
  ghost predicate CanMove(t: Tree, l: nat, p: nat, idx: nat, q: nat, parent: View, i: nat, pq: nat)
    requires IsNode(t, l, p) && idx < |Node(t, l, p).entries| && l + 1 < |t.levels| && Neighbours(t, l, q)
  {
    var t0 := Dropping(t, l, p, idx);
    && Neighbours(t0, l, q)
    && IsNode(t0, l + 1, pq) && parent.addr == t.levels[l + 1][pq] && i < |Node(t0, l + 1, pq).entries|
    && parent.addr != t.levels[l][q] && parent.addr != t.levels[l][q + 1]
    && t.levels[l][q] != t.levels[l][q + 1]
  }

  /** What taking an entry from a neighbour needs to know about the three nodes it changes. */
  lemma ParentFacts(c: Caps, t: Tree, l: nat, p: nat, idx: nat, q: nat, parent: View, index: nat, pq: nat)
    requires Starved(c, t, l, p, idx, q) && ParentAt(t.disk, t.levels, parent, index, l, q, pq)
    ensures parent.addr == t.levels[l + 1][pq] && IsNode(t, l + 1, pq) && index < |Node(t, l + 1, pq).entries|
    ensures Before(t, l + 1, pq) + index == q
    ensures parent.addr != t.levels[l][q] && parent.addr != t.levels[l][q + 1]
    ensures t.levels[l][q] != t.levels[l][q + 1]
    ensures var t0 := Dropping(t, l, p, idx);
            && IsNode(t0, l + 1, pq) && Node(t0, l + 1, pq) == Node(t, l + 1, pq)
            && Neighbours(t0, l, q)
            && |Node(t0, l, q).entries| <= Cap(c, l) && |Node(t0, l, q + 1).entries| <= Cap(c, l)
            && |Node(t0, l, p).entries| == Cap(c, l) / 2 - 1
  {
    StarvedNeighbours(c, t, l, p, idx, q);
    NodeFacts(c, t, l, q);
    NodeFacts(c, t, l, q + 1);
    assert LevelOk(c, t.disk, t.levels, l);
    Distinct(c, t.disk, t.levels[l], l, false);
    LevelsApart(c, t.disk, t.levels, t.root, l, l + 1, pq, l, q);
    LevelsApart(c, t.disk, t.levels, t.root, l, l + 1, pq, l, q + 1);
  }

  /** An entry was taken out of the tree: its value, and how its key relates to the one asked for. */
  ghost predicate Took(st: Status, c: Caps, t: Tree, t': Tree, at: nat, key: int, strict: bool, value: int) {
    match st
    case OK =>
      && t.levels != [] && t'.levels != [] && Ready(c, t', 0)
      && Blocks(t'.pool, t'.levels) == Blocks(t.pool, t.levels)
      && at < |Row(t, 0)| && Row(t', 0) == RemoveAt(Row(t, 0), at)
      && value == Row(t, 0)[at].rec
      && (if strict then Row(t, 0)[at].key == key else Row(t, 0)[at].key >= key)
    case _ => false
  }

  lemma TookFrom(st: Status, c: Caps, t: Tree, t': Tree, p: nat, idx: nat, key: int, strict: bool)
    requires Ready(c, t, 0) && IsNode(t, 0, p) && idx < |Node(t, 0, p).entries|
    requires Shrunk(st, c, t, t', 0, RowWithout(t, 0, p, idx))
    requires var e := Node(t, 0, p).entries[idx]; if strict then e.key == key else e.key >= key
    ensures Took(st, c, t, t', Before(t, 0, p) + idx, key, strict, Node(t, 0, p).entries[idx].rec)
  {
    FlatAt(t.disk, t.levels[0], p);
    assert Row(t, 0)[Before(t, 0, p) + idx] == Node(t, 0, p).entries[idx];
    NeverLeafless(c, t, t', RowWithout(t, 0, p, idx));
  }

  lemma OnlyOK(st: Status, c: Caps, t: Tree, t': Tree, at: nat, key: int, strict: bool, value: int)
    requires Took(st, c, t, t', at, key, strict, value)
    ensures st == OK
  {}

  /** Only an inner root can collapse. */
  lemma NeverLeafless(c: Caps, t: Tree, t': Tree, row: seq<Entry>)
    requires Ready(c, t, 0) && Shrunk(OK, c, t, t', 0, row)
    ensures t'.levels != []
  {}
}
