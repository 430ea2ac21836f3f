/** The rows and separators that a removal leaves behind when a node turns to its sibling. */
module BmTreeNodeRows {
  import opened BmTreeModel
  import opened BmTreeShape
  import opened BmTreeNodes
  import D = BmTreeOrderRemove
  import O = BmTreeOrder
  import R = BmTreeRemoveLemmas

  // ---- The entries of a level ----

  function Entries(row: Nodes): seq<Entry> {
    if row == [] then [] else row[0] + Entries(row[1..])
  }

  lemma {:induction false} EntriesFlat(d: Disk, row: seq<Address>)
    ensures Entries(NodesOf(d, row)) == Flat(d, row)
  {
    if row != [] {
      EntriesFlat(d, row[1..]);
      assert NodesOf(d, row)[1..] == NodesOf(d, row[1..]);
    }
  }

  lemma {:induction false} EntriesBoth(a: Nodes, b: Nodes)
    ensures Entries(a + b) == Entries(a) + Entries(b)
  {
    if a == [] {
      assert a + b == b;
    } else {
      assert (a + b)[1..] == a[1..] + b;
      EntriesBoth(a[1..], b);
    }
  }

  /** Part of a row makes way for other nodes. */
  lemma EntriesSplice(row: Nodes, q: nat, n: nat, mid: Nodes)
    requires q + n <= |row|
    ensures Entries(row[..q] + mid + row[q + n..]) == Entries(row[..q]) + Entries(mid) + Entries(row[q + n..])
  {
    EntriesBoth(row[..q], mid);
    EntriesBoth(row[..q] + mid, row[q + n..]);
  }

  lemma EntriesTwo(a: seq<Entry>, b: seq<Entry>)
    ensures Entries([a]) == a && Entries([a, b]) == a + b
  {
    assert [a][1..] == [] && [a, b][1..] == [b] && [b][1..] == [];
    assert Entries([b]) == b + Entries([]);
  }

  /** The entries of nodes `q` and `q + 1` may be divided in another way. */
  lemma EntriesDivided(row: Nodes, q: nat, mid: Nodes)
    requires q + 1 < |row| && Entries(mid) == row[q] + row[q + 1]
    ensures Entries(row[..q] + mid + row[q + 2..]) == Entries(row)
  {
    hide Entries;
    EntriesSplice(row, q, 2, mid);
    EntriesSplice(row, q, 2, [row[q], row[q + 1]]);
    EntriesTwo(row[q], row[q + 1]);
    assert row[..q] + [row[q], row[q + 1]] + row[q + 2..] == row;
  }

  lemma JoinedEntries(row: Nodes, q: nat)
    requires q + 1 < |row|
    ensures Entries(Joined(row, q)) == Entries(row)
  {
    EntriesTwo(row[q] + row[q + 1], []);
    EntriesDivided(row, q, [row[q] + row[q + 1]]);
  }

  lemma MovedParts(row: Nodes, q: nat, up: bool)
    requires q + 1 < |row| && row[q] != [] && row[q + 1] != []
    ensures var moved := Moved(row, q, up);
            && moved == row[..q] + [moved[q], moved[q + 1]] + row[q + 2..]
            && moved[q] + moved[q + 1] == row[q] + row[q + 1]
            && |moved[q]| == if up then |row[q]| - 1 else |row[q]| + 1
  {}

  lemma MovedEntries(row: Nodes, q: nat, up: bool)
    requires q + 1 < |row| && row[q] != [] && row[q + 1] != []
    ensures Entries(Moved(row, q, up)) == Entries(row)
  {
    hide Entries;
    MovedParts(row, q, up);
    var moved := Moved(row, q, up);
    EntriesTwo(moved[q], moved[q + 1]);
    EntriesDivided(row, q, [moved[q], moved[q + 1]]);
  }

  /** How many entries of a level come before entry `i` of its node `p`. */
  function Place(row: Nodes, p: nat, i: nat): nat
    requires p <= |row|
  {
    |Entries(row[..p])| + i
  }

  lemma {:induction false} HolderPlace(row: Nodes, n: nat)
    requires n < |Entries(row)|
    ensures var h := Holder(row, n); h.0 < |row| && h.1 < |row[h.0]| && Place(row, h.0, h.1) == n
  {
    if n >= |row[0]| {
      HolderPlace(row[1..], n - |row[0]|);
      var h := Holder(row, n);
      assert row[..h.0][1..] == row[1..][..h.0 - 1];
    }
  }

  /** One node of a row gets other entries. */
  lemma EntriesPut(row: Nodes, p: nat, es: seq<Entry>)
    requires p < |row|
    ensures Entries(row[p := es]) == Entries(row[..p]) + es + Entries(row[p + 1..])
  {
    hide Entries;
    EntriesSplice(row, p, 1, [es]);
    EntriesTwo(es, []);
    assert row[p := es] == row[..p] + [es] + row[p + 1..];
  }

  lemma EntriesWithout(row: Nodes, p: nat, idx: nat)
    requires p < |row| && idx < |row[p]|
    ensures Place(row, p, idx) < |Entries(row)|
    ensures Entries(row[p := RemoveAt(row[p], idx)]) == RemoveAt(Entries(row), Place(row, p, idx))
  {
    hide Entries, RemoveAt;
    EntriesPut(row, p, RemoveAt(row[p], idx));
    EntriesPut(row, p, row[p]);
    assert row[p := row[p]] == row;
    R.RemoveWithin(Entries(row[..p]), row[p], Entries(row[p + 1..]), idx);
  }

  /** The lowest level is full enough, with one entry above for each of its nodes, and two or more in each parent. */
  ghost predicate Rooted(c: Caps, up: seq<Nodes>, l: nat) {
    && CapsOk(c) && up != []
    && (|up| > 1 ==>
          && |Entries(up[1])| == |up[0]|
          && (forall x :: 0 <= x < |up[0]| ==> |up[0][x]| >= Cap(c, l) / 2)
          && (forall x :: 0 <= x < |up[1]| ==> |up[1][x]| >= 2))
  }

  /** Entry `left` of node `h.0` above is that of node `q` below. */
  lemma SiblingPlace(c: Caps, up: seq<Nodes>, l: nat, p: nat)
    requires Rooted(c, up, l) && |up| > 1 && p < |up[0]|
    ensures var h := Holder(up[1], p);
            var left := if h.1 > 0 then h.1 - 1 else 0; var q := if h.1 > 0 then p - 1 else p;
            && h.0 < |up[1]| && left + 1 < |up[1][h.0]| && h.1 <= p && q + 1 < |up[0]| && Place(up[1], h.0, left) == q
  {
    HolderPlace(up[1], p);
    var h := Holder(up[1], p);
    EntriesWithout(up[1], h.0, if h.1 > 0 then h.1 else 1);
  }

  /** What is left of a level has lost just that entry. */
  lemma TrimmedEntries(c: Caps, up: seq<Nodes>, l: nat, p: nat, idx: nat, root: Address)
    requires Rooted(c, up, l) && p < |up[0]| && idx < |up[0][p]|
    ensures Place(up[0], p, idx) < |Entries(up[0])|
    ensures var r := Trimmed(c, up, l, p, idx, root).0;
            if r == [] then |up| == 1 else Entries(r[0]) == RemoveAt(Entries(up[0]), Place(up[0], p, idx))
  {
    hide Entries, RemoveAt, Joined, Moved, Holder, Place;
    var row := up[0][p := RemoveAt(up[0][p], idx)];
    EntriesWithout(up[0], p, idx);
    if |up| > 1 && |row[p]| < Cap(c, l) / 2 {
      SiblingPlace(c, up, l, p);
      var h := Holder(up[1], p);
      var q := if h.1 > 0 then p - 1 else p;
      JoinedEntries(row, q);
      if |row[q]| + |row[q + 1]| > Cap(c, l) {
        MovedEntries(row, q, h.1 > 0);
        MovedParts(row, q, h.1 > 0);
      }
    }
  }

  // ---- The nodes and separators of a tree ----

  /** The entries of node `x` of level `l`. */
  ghost function NodeEnts(t: Tree, l: nat, x: nat): seq<Entry>
    requires l < |t.levels|
  {
    if x < |t.levels[l]| then Ents(t.disk, t.levels[l][x]) else []
  }

  /** Nodes `q` and `q + 1` of level `l` became one that holds `es`; all others and their separators stay. */
  ghost predicate OneFewer(t: Tree, t': Tree, l: nat, q: nat, es: seq<Entry>) {
    && l < |t.levels| && l < |t'.levels| && q + 1 < |t.levels[l]| == |t'.levels[l]| + 1
    && NodeEnts(t', l, q) == es
    && (forall x :: 0 <= x < q ==> NodeEnts(t', l, x) == NodeEnts(t, l, x) && O.Sep(t', l, x) == O.Sep(t, l, x))
    && (forall x :: q < x < |t'.levels[l]| ==> NodeEnts(t', l, x) == NodeEnts(t, l, x + 1))
    && (forall x :: q <= x < |t'.levels[l]| - 1 ==> O.Sep(t', l, x) == O.Sep(t, l, x + 1))
  }

  /** Nodes `q` and `q + 1` hold `ls` and `rs`, parted by the last key of `ls`; all others and their separators stay. */
  ghost predicate OneMoved(t: Tree, t': Tree, l: nat, q: nat, ls: seq<Entry>, rs: seq<Entry>) {
    && l < |t.levels| && l < |t'.levels| && q + 1 < |t.levels[l]| == |t'.levels[l]|
    && NodeEnts(t', l, q) == ls && NodeEnts(t', l, q + 1) == rs && O.Sep(t', l, q) == O.LastKey(ls)
    && (forall x :: 0 <= x < |t.levels[l]| && x != q && x != q + 1 ==> NodeEnts(t', l, x) == NodeEnts(t, l, x))
    && (forall x :: 0 <= x < |t.levels[l]| - 1 && x != q ==> O.Sep(t', l, x) == O.Sep(t, l, x))
  }

  lemma ReadyRooted(c: Caps, t: Tree, l: nat)
    requires Ready(c, t, l)
    ensures Rooted(c, Above(t, l), l) && Above(t, l)[0] == NodesOf(t.disk, t.levels[l])
  {
    hide Flat, Blocks, BlocksOk;
    AboveStep(t, l);
    AboveLength(t, l);
    if l + 1 < |t.levels| {
      forall x: nat | x < |t.levels[l]| ensures |Ents(t.disk, t.levels[l][x])| >= Cap(c, l) / 2 {
        NodeFacts(c, t, l, x);
      }
      AboveStep(t, l + 1);
      assert LevelOk(c, t.disk, t.levels, l);
      EntriesFlat(t.disk, t.levels[l + 1]);
      assert |Recs(Row(t, l + 1))| == |t.levels[l]|;
      var row := t.levels[l + 1];
      forall x: nat | x < |row| ensures |Ents(t.disk, row[x])| >= 2 {
        NodeFacts(c, t, l + 1, x);
      }
    }
  }

  /** The sibling that node `p` turns to: the one to the left, or for a first child the one to the right. */
  ghost predicate Turns(t: Tree, l: nat, p: nat, pq: nat, i: nat, q: nat) {
    && l + 1 < |t.levels| && Siblings(Above(t, l), p, q, pq, i)
  }

  lemma TurnsSomewhere(c: Caps, t: Tree, l: nat, p: nat) returns (pq: nat, i: nat, q: nat)
    requires Ready(c, t, l) && l + 1 < |t.levels| && p < |t.levels[l]|
    ensures Turns(t, l, p, pq, i, q)
  {
    hide Ready, Entries, Holder;
    ReadyRooted(c, t, l);
    AboveLength(t, l);
    SiblingPlace(c, Above(t, l), l, p);
    pq := Holder(Above(t, l)[1], p).0;
    var h := Holder(Above(t, l)[1], p).1;
    i, q := if h > 0 then h - 1 else 0, if h > 0 then p - 1 else p;
  }

  lemma TurnsTo(t: Tree, l: nat, p: nat, pq: nat, i: nat, q: nat)
    requires Turns(t, l, p, pq, i, q)
    ensures l + 1 < |t.levels| && q + 1 < |t.levels[l]| && (p == q || p == q + 1)
  {
    AboveStep(t, l);
  }

  lemma NodesHere(t: Tree, l: nat)
    requires l < |t.levels|
    ensures |Above(t, l)| >= 1 && |Above(t, l)[0]| == |t.levels[l]|
    ensures forall x :: 0 <= x < |t.levels[l]| ==> Above(t, l)[0][x] == NodeEnts(t, l, x)
  {
    AboveStep(t, l);
  }

  lemma JoinedAt(row: Nodes, q: nat)
    requires q + 1 < |row|
    ensures |Joined(row, q)| == |row| - 1 && Joined(row, q)[q] == row[q] + row[q + 1]
    ensures forall x :: 0 <= x < q ==> Joined(row, q)[x] == row[x]
    ensures forall x :: q < x < |row| - 1 ==> Joined(row, q)[x] == row[x + 1]
  {}

  /** A node that stays half full, or is the root, only loses the entry; an inner root with two entries goes. */
  lemma NodeSpares(c: Caps, t: Tree, t': Tree, l: nat, p: nat, idx: nat)
    requires Ready(c, t, l) && l <= |t'.levels| && LevelsTrimmed(c, t, l, p, idx, t')
    requires p < |t.levels[l]| && idx < |NodeEnts(t, l, p)|
    requires l == |t.levels| - 1 || |NodeEnts(t, l, p)| > Cap(c, l) / 2
    ensures l == |t'.levels| <==> l == |t.levels| - 1 && l > 0 && |NodeEnts(t, l, p)| == 2
    ensures l < |t'.levels| ==>
      && |t'.levels[l]| == |t.levels[l]| && NodeEnts(t', l, p) == RemoveAt(NodeEnts(t, l, p), idx)
      && (forall x :: 0 <= x < |t.levels[l]| && x != p ==> NodeEnts(t', l, x) == NodeEnts(t, l, x))
      && Above(t', l + 1) == Above(t, l + 1)
  {
    hide Ready, Above, NodesOf, RemoveAt, Holder;
    NodeAbove(c, t, l);
    AboveStep(t, l);
    NodesHere(t, l);
    if l < |t'.levels| {
      AboveStep(t', l);
      NodesHere(t', l);
    } else {
      AboveNone(t', l);
    }
  }

  lemma NodeAbove(c: Caps, t: Tree, l: nat)
    requires Ready(c, t, l)
    ensures l < |t.levels| && |Above(t, l)| == |t.levels| - l
  {
    AboveLength(t, l);
  }

  /** The row above two nodes that were joined has lost the left one's entry. */
  lemma SepsJoined(c: Caps, t: Tree, t': Tree, l: nat, p: nat, pq: nat, i: nat, q: nat)
    requires Ready(c, t, l) && Ready(c, t', l) && Turns(t, l, p, pq, i, q) && LevelsTrimmed(c, t, l + 1, pq, i, t')
    ensures l + 1 < |t'.levels| ==>
              && q < |Row(t, l + 1)| == |t.levels[l]| && |t'.levels[l]| == |Row(t', l + 1)|
              && Row(t', l + 1) == RemoveAt(Row(t, l + 1), q)
    ensures l + 1 == |t'.levels| ==> |t'.levels[l]| == 1
  {
    hide Trimmed, RemoveAt, Flat, Blocks, BlocksOk, LevelOk, Holder, Entries;
    ReadyRooted(c, t, l);
    assert Ready(c, t, l + 1);
    ReadyRooted(c, t, l + 1);
    AboveStep(t, l);
    EntriesFlat(t.disk, t.levels[l + 1]);
    TrimmedEntries(c, Above(t, l + 1), l + 1, pq, i, t.root);
    SiblingPlace(c, Above(t, l), l, p);
    LinkedRow(c, t, l);
    if l + 1 < |t'.levels| {
      LinkedRow(c, t', l);
      AboveStep(t', l + 1);
      EntriesFlat(t'.disk, t'.levels[l + 1]);
    }
  }

  lemma LinkedRow(c: Caps, t: Tree, l: nat)
    requires Ready(c, t, l) && l + 1 < |t.levels|
    ensures |Row(t, l + 1)| == |t.levels[l]|
  {
    assert LevelOk(c, t.disk, t.levels, l);
    assert |Recs(Row(t, l + 1))| == |t.levels[l]|;
  }

  /** A node that can spare no entry and fits into one node with its sibling joins it, and the parent is trimmed. */
  lemma NodesJoined(c: Caps, t: Tree, t': Tree, l: nat, p: nat, idx: nat, pq: nat, i: nat, q: nat)
    requires Ready(c, t, l) && Ready(c, t', l) && LevelsTrimmed(c, t, l, p, idx, t') && Turns(t, l, p, pq, i, q)
    requires p < |t.levels[l]| && idx < |NodeEnts(t, l, p)| == Cap(c, l) / 2
    requires |NodeEnts(t, l, q)| + |NodeEnts(t, l, q + 1)| <= Cap(c, l) + 1
    ensures var es := RemoveAt(NodeEnts(t, l, p), idx);
            OneFewer(t, t', l, q, if p == q then es + NodeEnts(t, l, q + 1) else NodeEnts(t, l, q) + es)
    ensures LevelsTrimmed(c, t, l + 1, pq, i, t')
  {
    hide LevelOk, Blocks, BlocksOk, Flat, Holder, Trimmed, Above, Entries, Joined, NodesOf;
    var up := Above(t, l);
    NodesHere(t, l);
    NodesHere(t', l);
    AboveStep(t, l);
    TrimJoins(c, up, l, p, idx, t.root, q, pq, i);
    var row := Joined(up[0][p := RemoveAt(up[0][p], idx)], q);
    AboveStep(t', l);
    assert Above(t', l)[0] == row;
    JoinedAt(up[0][p := RemoveAt(up[0][p], idx)], q);
    assert Above(t', l + 1) == Above(t', l)[1..];
    SepsJoined(c, t, t', l, p, pq, i, q);
  }

  lemma MovedAt(row: Nodes, q: nat, up: bool)
    requires q + 1 < |row| && row[q] != [] && row[q + 1] != []
    ensures |Moved(row, q, up)| == |row|
    ensures Moved(row, q, up)[q] == if up then row[q][..|row[q]| - 1] else row[q] + [row[q + 1][0]]
    ensures Moved(row, q, up)[q + 1] == if up then [row[q][|row[q]| - 1]] + row[q + 1] else row[q + 1][1..]
    ensures forall x :: 0 <= x < |row| && x != q && x != q + 1 ==> Moved(row, q, up)[x] == row[x]
  {}

  lemma RekeyedEntries(row: Nodes, pq: nat, i: nat, es: seq<Entry>)
    requires pq < |row| && i < |row[pq]| && es != []
    ensures var q := Place(row, pq, i);
            && q < |Entries(row)|
            && Entries(Rekeyed(row, pq, i, es)) == Entries(row)[q := Entry(es[|es| - 1].key, Entries(row)[q].rec)]
  {
    hide Entries;
    var e := Entry(es[|es| - 1].key, row[pq][i].rec);
    EntriesPut(row, pq, row[pq][i := e]);
    EntriesPut(row, pq, row[pq]);
    assert row[pq := row[pq]] == row;
    D.UpdateWithin(Entries(row[..pq]), row[pq], Entries(row[pq + 1..]), i, e);
  }

  /** The row above two nodes that shared has another key for the left one. */
  lemma SepsMoved(c: Caps, t: Tree, t': Tree, l: nat, p: nat, pq: nat, i: nat, q: nat, ls: seq<Entry>)
    requires Ready(c, t, l) && Turns(t, l, p, pq, i, q) && ls != [] && l + 1 < |t'.levels|
    requires Above(t', l + 1) == [Rekeyed(Above(t, l)[1], pq, i, ls)] + Above(t, l)[2..]
    ensures q < |Row(t, l + 1)| == |t.levels[l]|
    ensures Row(t', l + 1) == Row(t, l + 1)[q := Entry(O.LastKey(ls), Row(t, l + 1)[q].rec)]
  {
    hide Flat, Blocks, BlocksOk, LevelOk, Holder, Entries, Rekeyed;
    ReadyRooted(c, t, l);
    AboveStep(t, l);
    AboveStep(t, l + 1);
    AboveStep(t', l + 1);
    EntriesFlat(t.disk, t.levels[l + 1]);
    EntriesFlat(t'.disk, t'.levels[l + 1]);
    SiblingPlace(c, Above(t, l), l, p);
    LinkedRow(c, t, l);
    RekeyedEntries(Above(t, l)[1], pq, i, ls);
  }

  /** The levels after one entry has moved. */
  lemma SharedAbove(c: Caps, t: Tree, t': Tree, l: nat, p: nat, idx: nat, pq: nat, i: nat, q: nat)
    requires Ready(c, t, l) && LevelsTrimmed(c, t, l, p, idx, t') && Turns(t, l, p, pq, i, q)
    requires p < |t.levels[l]| && idx < |NodeEnts(t, l, p)| == Cap(c, l) / 2
    requires |NodeEnts(t, l, q)| + |NodeEnts(t, l, q + 1)| > Cap(c, l) + 1
    ensures Above(t, l)[0][p] == NodeEnts(t, l, p)
    ensures var row := Above(t, l)[0][p := RemoveAt(NodeEnts(t, l, p), idx)];
      && row[q] != [] && row[q + 1] != [] && Moved(row, q, p != q)[q] != []
      && Above(t', l) == [Moved(row, q, p != q), Rekeyed(Above(t, l)[1], pq, i, Moved(row, q, p != q)[q])]
                       + Above(t, l)[2..]
  {
    hide LevelOk, Blocks, BlocksOk, Flat, Holder, Trimmed, Above, Entries, Moved, Rekeyed, NodesOf, RemoveAt;
    var up := Above(t, l);
    NodesHere(t, l);
    ReadyRooted(c, t, l);
    var row := up[0][p := RemoveAt(up[0][p], idx)];
    MovedAt(row, q, p != q);
    TrimShares(c, up, l, p, idx, t.root, q, pq, i, Moved(row, q, p != q));
  }

  /** The nodes of a level in which one entry has moved. */
  lemma SharedNodes(t: Tree, t': Tree, l: nat, p: nat, idx: nat, q: nat)
    requires l < |t.levels| && l < |t'.levels| && p < |t.levels[l]| && idx < |NodeEnts(t, l, p)|
    requires q + 1 < |t.levels[l]| && (p == q || p == q + 1) && Above(t, l) != [] && Above(t', l) != []
    requires |Above(t, l)[0]| == |t.levels[l]| && Above(t, l)[0][p] == NodeEnts(t, l, p)
    requires var row := Above(t, l)[0][p := RemoveAt(NodeEnts(t, l, p), idx)];
             row[q] != [] && row[q + 1] != [] && Above(t', l)[0] == Moved(row, q, p != q)
    ensures |t'.levels[l]| == |t.levels[l]|
    ensures var row := Above(t, l)[0][p := RemoveAt(NodeEnts(t, l, p), idx)];
      && NodeEnts(t', l, q) == Moved(row, q, p != q)[q] && NodeEnts(t', l, q + 1) == Moved(row, q, p != q)[q + 1]
      && row[if p == q then q + 1 else q] == NodeEnts(t, l, if p == q then q + 1 else q)
    ensures forall x :: 0 <= x < |t.levels[l]| && x != q && x != q + 1 ==> NodeEnts(t', l, x) == NodeEnts(t, l, x)
  {
    hide Above, Moved, RemoveAt, NodesOf;
    NodesHere(t, l);
    NodesHere(t', l);
    MovedAt(Above(t, l)[0][p := RemoveAt(NodeEnts(t, l, p), idx)], q, p != q);
  }

  lemma SharedMoves(c: Caps, t: Tree, t': Tree, l: nat, p: nat, idx: nat, pq: nat, i: nat, q: nat)
    requires Ready(c, t, l) && Ready(c, t', l) && LevelsTrimmed(c, t, l, p, idx, t') && Turns(t, l, p, pq, i, q)
    requires p < |t.levels[l]| && idx < |NodeEnts(t, l, p)| == Cap(c, l) / 2
    requires |NodeEnts(t, l, q)| + |NodeEnts(t, l, q + 1)| > Cap(c, l) + 1
    ensures Above(t, l) != [] && |Above(t, l)[0]| == |t.levels[l]|
    ensures var row := Above(t, l)[0][p := RemoveAt(NodeEnts(t, l, p), idx)];
      && row[q] != [] && row[q + 1] != []
      && OneMoved(t, t', l, q, Moved(row, q, p != q)[q], Moved(row, q, p != q)[q + 1])
    ensures Above(t', l + 2) == Above(t, l + 2)
  {
    hide LevelOk, Blocks, BlocksOk, Flat, Holder, Trimmed, Above, Moved, Rekeyed, NodesOf, Row, RemoveAt, NodeEnts,
         LevelsTrimmed, O.LastKey;
    NodesHere(t, l);
    SharedAbove(c, t, t', l, p, idx, pq, i, q);
    var row := Above(t, l)[0][p := RemoveAt(NodeEnts(t, l, p), idx)];
    AboveStep(t', l);
    SharedNodes(t, t', l, p, idx, q);
    SepsMoved(c, t, t', l, p, pq, i, q, Moved(row, q, p != q)[q]);
    AboveStep(t, l);
    AboveStep(t, l + 1);
    AboveStep(t', l + 1);
  }

  /** One entry moves to node `p`, which has only `es` left. */
  lemma MovedTo(was: Nodes, p: nat, q: nat, es: seq<Entry>)
    requires p < |was| && q + 1 < |was| && (p == q || p == q + 1)
    requires es != [] && was[if p == q then q + 1 else q] != []
    ensures var row, a, b := was[p := es], was[q], was[q + 1];
      && Moved(row, q, p != q)[q] == (if p == q then es + [b[0]] else a[..|a| - 1])
      && Moved(row, q, p != q)[q + 1] == (if p == q then b[1..] else [a[|a| - 1]] + es)
  {}

  /** A node that can spare no entry and does not fit into one node with its sibling gets one entry from it. */
  lemma NodesShared(c: Caps, t: Tree, t': Tree, l: nat, p: nat, idx: nat, pq: nat, i: nat, q: nat)
    requires Ready(c, t, l) && Ready(c, t', l) && LevelsTrimmed(c, t, l, p, idx, t') && Turns(t, l, p, pq, i, q)
    requires p < |t.levels[l]| && idx < |NodeEnts(t, l, p)| == Cap(c, l) / 2
    requires |NodeEnts(t, l, q)| + |NodeEnts(t, l, q + 1)| > Cap(c, l) + 1
    ensures var es := RemoveAt(NodeEnts(t, l, p), idx);
            if p == q then var b := NodeEnts(t, l, q + 1); b != [] && OneMoved(t, t', l, q, es + [b[0]], b[1..])
            else
              var a, n := NodeEnts(t, l, q), |NodeEnts(t, l, q)| - 1;
              n > 0 && OneMoved(t, t', l, q, a[..n], [a[n]] + es)
    ensures Above(t', l + 2) == Above(t, l + 2)
  {
    hide LevelOk, Blocks, BlocksOk, Flat, Trimmed, Above, Moved, NodesOf, RemoveAt, OneMoved, LevelsTrimmed, Turns;
    SharedMoves(c, t, t', l, p, idx, pq, i, q);
    TurnsTo(t, l, p, pq, i, q);
    NodesHere(t, l);
    MovedTo(Above(t, l)[0], p, q, RemoveAt(NodeEnts(t, l, p), idx));
  }

  // ---- Insertions that fail ----

  /** An insertion that fails although a block was free has lost the lower half of the leaf it was for. */
  lemma FailedInsertLoses(c: Caps, t: Tree, p: nat, t': Tree)
    requires Ready(c, t, 0) && p < |t.levels[0]| && |NodeEnts(t, 0, p)| == Cap(c, 0)
    requires StuntedTo(c, t, 0, p, t') && t.pool != []
    ensures t'.levels == t.levels && NodeEnts(t', 0, p) == NodeEnts(t, 0, p)[Cap(c, 0) / 2..]
    ensures forall x :: 0 <= x < |t.levels[0]| && x != p ==> NodeEnts(t', 0, x) == NodeEnts(t, 0, x)
    ensures multiset(Row(t, 0)) == multiset(Row(t', 0)) + multiset(NodeEnts(t, 0, p)[..Cap(c, 0) / 2])
    ensures |Row(t', 0)| < |Row(t, 0)|
  {
    hide LevelOk, Blocks, BlocksOk, Holder, Entries, NodesOf, Flat;
    NodesHere(t, 0);
    NodesHere(t', 0);
    AboveStep(t, 0);
    AboveStep(t', 0);
    var up, es := Above(t, 0), NodeEnts(t, 0, p);
    assert Above(t', 0)[0] == up[0][p := es[Cap(c, 0) / 2..]];
    EntriesFlat(t.disk, t.levels[0]);
    EntriesFlat(t'.disk, t.levels[0]);
    EntriesPut(up[0], p, es[Cap(c, 0) / 2..]);
    EntriesPut(up[0], p, es);
    assert up[0][p := es] == up[0] && es == es[..Cap(c, 0) / 2] + es[Cap(c, 0) / 2..];
  }
}
