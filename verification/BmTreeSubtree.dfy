/** What lies below a stretch of a row: its nodes, their blocks and the entries of its leaves. */
module BmTreeSubtree {
  import opened BmTreeModel
  import opened BmTreeShape
  import opened BmTreeBlocks

  /** Where the children of node `p` of level `l` start in the level below. */
  ghost function Off(t: Tree, l: nat, p: nat): nat {
    if l < |t.levels| && p <= |t.levels[l]| then Before(t, l, p) else 0
  }

  /** The blocks of the subtrees of nodes `a` up to `b` of level `l`. */
  ghost function SegBag(t: Tree, l: nat, a: nat, b: nat): multiset<Address>
    requires l < |t.levels| && a <= b <= |t.levels[l]|
    decreases l
  {
    multiset(t.levels[l][a..b]) + (if l == 0 || !(Off(t, l, a) <= Off(t, l, b) <= |t.levels[l - 1]|) then multiset{}
                                   else SegBag(t, l - 1, Off(t, l, a), Off(t, l, b)))
  }

  /** The entries in the leaves of those subtrees, in order. */
  ghost function SegRow(t: Tree, l: nat, a: nat, b: nat): seq<Entry>
    requires l < |t.levels| && a <= b <= |t.levels[l]|
    decreases l
  {
    if l == 0 then Flat(t.disk, t.levels[0][a..b])
    else if Off(t, l, a) <= Off(t, l, b) <= |t.levels[l - 1]| then SegRow(t, l - 1, Off(t, l, a), Off(t, l, b)) else []
  }

  lemma OffBounds(c: Caps, t: Tree, l: nat, a: nat, b: nat)
    requires Ready(c, t, 0) && 0 < l < |t.levels| && a <= b <= |t.levels[l]|
    ensures Off(t, l, a) <= Off(t, l, b) <= |t.levels[l - 1]|
    ensures Off(t, l, 0) == 0 && Off(t, l, |t.levels[l]|) == |t.levels[l - 1]|
  {
    var row := t.levels[l];
    assert LevelOk(c, t.disk, t.levels, l - 1);
    assert row[..b] == row[..a] + row[a..b] && row == row[..b] + row[b..];
    FlatConcat(t.disk, row[..a], row[a..b]);
    FlatConcat(t.disk, row[..b], row[b..]);
    assert row[..|row|] == row;
  }

  lemma OffNext(c: Caps, t: Tree, l: nat, p: nat)
    requires Ready(c, t, 0) && 0 < l < |t.levels| && p < |t.levels[l]|
    ensures Off(t, l, p + 1) == Off(t, l, p) + |Ents(t.disk, t.levels[l][p])|
  {
    FlatAt(t.disk, t.levels[l], p);
  }

  lemma {:induction false} SegJoin(c: Caps, t: Tree, l: nat, a: nat, m: nat, b: nat)
    requires Ready(c, t, 0) && l < |t.levels| && a <= m <= b <= |t.levels[l]|
    ensures SegBag(t, l, a, b) == SegBag(t, l, a, m) + SegBag(t, l, m, b)
    ensures SegRow(t, l, a, b) == SegRow(t, l, a, m) + SegRow(t, l, m, b)
    decreases l
  {
    hide Blocks, BlocksOk, LevelOk, Flat;
    var row := t.levels[l];
    assert row[a..b] == row[a..m] + row[m..b];
    if l == 0 {
      FlatConcat(t.disk, row[a..m], row[m..b]);
    } else {
      OffBounds(c, t, l, a, m);
      OffBounds(c, t, l, m, b);
      SegJoin(c, t, l - 1, Off(t, l, a), Off(t, l, m), Off(t, l, b));
    }
  }

  /** The whole of level `l` has everything up to that level below it. */
  lemma {:induction false} SegAll(c: Caps, t: Tree, l: nat)
    requires Ready(c, t, 0) && l < |t.levels|
    ensures SegBag(t, l, 0, |t.levels[l]|) == Bag(t.levels[..l + 1])
    ensures SegRow(t, l, 0, |t.levels[l]|) == Row(t, 0)
    ensures SegSize(t, l, 0, |t.levels[l]|) == |Bag(t.levels[..l + 1])|
  {
    hide Blocks, BlocksOk;
    if l > 0 {
      OffBounds(c, t, l, 0, |t.levels[l]|);
      SegAll(c, t, l - 1);
    }
    SegAllStep(t, l);
  }

  lemma SegAllStep(t: Tree, l: nat)
    requires l < |t.levels|
    requires l > 0 ==> Off(t, l, 0) == 0 && Off(t, l, |t.levels[l]|) == |t.levels[l - 1]|
    requires l > 0 ==> SegBag(t, l - 1, 0, |t.levels[l - 1]|) == Bag(t.levels[..l])
    ensures SegBag(t, l, 0, |t.levels[l]|) == Bag(t.levels[..l + 1])
    ensures l == 0 ==> SegRow(t, 0, 0, |t.levels[0]|) == Row(t, 0)
  {
    var row := t.levels[l];
    assert row[0..|row|] == row;
    assert t.levels[..l + 1] == t.levels[..l] + [row];
    BagAppend(t.levels[..l], row);
    assert t.levels[..0] == [];
  }

  /** The blocks of a subtree in order: its node comes first, then the subtrees of its children from left to right. */
  ghost function Subtree(t: Tree, l: nat, p: nat): seq<Address>
    requires l < |t.levels| && p < |t.levels[l]|
    decreases l, 0
  {
    [t.levels[l][p]] + if l == 0 || !(Off(t, l, p) <= Off(t, l, p + 1) <= |t.levels[l - 1]|) then []
                       else Subtrees(t, l - 1, Off(t, l, p), Off(t, l, p + 1))
  }

  ghost function Subtrees(t: Tree, l: nat, a: nat, b: nat): seq<Address>
    requires l < |t.levels| && a <= b <= |t.levels[l]|
    decreases l, b - a
  {
    if a == b then [] else Subtrees(t, l, a, b - 1) + Subtree(t, l, b - 1)
  }

  lemma SubtreesNone(t: Tree, l: nat, a: nat)
    requires l < |t.levels| && a <= |t.levels[l]|
    ensures Subtrees(t, l, a, a) == []
  {}

  lemma SubtreesStep(t: Tree, l: nat, a: nat, b: nat)
    requires l < |t.levels| && a <= b < |t.levels[l]|
    ensures Subtrees(t, l, a, b + 1) == Subtrees(t, l, a, b) + Subtree(t, l, b)
  {
    hide Subtree;
  }

  lemma SubtreeOfNode(c: Caps, t: Tree, l: nat, p: nat)
    requires Ready(c, t, 0) && l < |t.levels| && p < |t.levels[l]|
    ensures l == 0 ==> Subtree(t, 0, p) == [t.levels[0][p]]
    ensures l > 0 ==>
      && Off(t, l, p) <= Off(t, l, p) + |Ents(t.disk, t.levels[l][p])| <= |t.levels[l - 1]|
      && Subtree(t, l, p) == [t.levels[l][p]]
                           + Subtrees(t, l - 1, Off(t, l, p), Off(t, l, p) + |Ents(t.disk, t.levels[l][p])|)
  {
    hide Blocks, BlocksOk, Shape, Subtrees;
    if l > 0 {
      OffNext(c, t, l, p);
      OffBounds(c, t, l, p, p + 1);
    }
  }

  lemma {:induction false} SubtreesPrefix(t: Tree, l: nat, a: nat, m: nat, b: nat)
    requires l < |t.levels| && a <= m <= b <= |t.levels[l]|
    ensures Subtrees(t, l, a, m) <= Subtrees(t, l, a, b)
    decreases b - m
  {
    hide Subtree;
    if m < b { SubtreesPrefix(t, l, a, m, b - 1); }
  }

  lemma {:induction false} SubtreeBag(c: Caps, t: Tree, l: nat, p: nat)
    requires Ready(c, t, 0) && l < |t.levels| && p < |t.levels[l]|
    ensures multiset(Subtree(t, l, p)) == SegBag(t, l, p, p + 1)
    decreases l, 0
  {
    hide Blocks, BlocksOk, Shape, SegBag, Subtrees;
    if l == 0 {
      Leaf(c, t, p);
    } else {
      OffBounds(c, t, l, p, p + 1);
      SubtreesBag(c, t, l - 1, Off(t, l, p), Off(t, l, p + 1));
      SegOfNode(t, l, p);
    }
  }

  lemma {:induction false} SubtreesBag(c: Caps, t: Tree, l: nat, a: nat, b: nat)
    requires Ready(c, t, 0) && l < |t.levels| && a <= b <= |t.levels[l]|
    ensures multiset(Subtrees(t, l, a, b)) == SegBag(t, l, a, b)
    decreases l, b - a
  {
    hide Blocks, BlocksOk, Shape, SegBag, Subtree;
    if a == b {
      SegEmpty(c, t, l, a);
    } else {
      SubtreesBag(c, t, l, a, b - 1);
      SubtreeBag(c, t, l, b - 1);
      SegStep(c, t, l, a, b - 1);
    }
  }

  /** All blocks of a whole tree. */
  lemma WholeTree(c: Caps, t: Tree)
    requires Ready(c, t, 0)
    ensures t.levels != [] && |t.levels[|t.levels| - 1]| == 1
    ensures multiset(Subtree(t, |t.levels| - 1, 0)) == Bag(t.levels)
  {
    hide SegBag, Bag, Subtree, LevelOk;
    SubtreeBag(c, t, |t.levels| - 1, 0);
    SegAll(c, t, |t.levels| - 1);
    assert t.levels[..|t.levels|] == t.levels;
  }

  // ---- Single nodes ----

  ghost function SegSize(t: Tree, l: nat, a: nat, b: nat): nat
    requires l < |t.levels| && a <= b <= |t.levels[l]|
  {
    |SegBag(t, l, a, b)|
  }

  /** Node `p` of level `l`, an inner one, has the nodes from `first` on as its children. */
  ghost predicate ChildrenFrom(t: Tree, l: nat, p: nat, first: nat) {
    && 0 < l < |t.levels| && IsNode(t, l, p)
    && var es := Node(t, l, p).entries;
       && first + |es| <= |t.levels[l - 1]|
       && forall i :: 0 <= i < |es| ==> es[i].rec == t.levels[l - 1][first + i]
  }

  lemma Children(c: Caps, t: Tree, l: nat, p: nat) returns (first: nat)
    requires Ready(c, t, 0) && 0 < l < |t.levels| && p < |t.levels[l]|
    ensures ChildrenFrom(t, l, p, first) && first == Off(t, l, p)
    ensures var n := |Node(t, l, p).entries|;
      && SegBag(t, l, p, p + 1) == multiset{t.levels[l][p]} + SegBag(t, l - 1, first, first + n)
      && SegRow(t, l, p, p + 1) == SegRow(t, l - 1, first, first + n)
      && SegSize(t, l, p, p + 1) == 1 + SegSize(t, l - 1, first, first + n)
  {
    hide SegBag, SegRow, Shape, Blocks, BlocksOk;
    first := Off(t, l, p);
    AreChildren(c, t, l, p);
    OffNext(c, t, l, p);
    SegOfNode(t, l, p);
    OneMore(t.levels[l][p], SegBag(t, l - 1, first, first + |Node(t, l, p).entries|));
  }

  lemma OneMore(a: Address, blocks: multiset<Address>)
    ensures |multiset{a} + blocks| == 1 + |blocks|
  {}

  lemma AreChildren(c: Caps, t: Tree, l: nat, p: nat)
    requires Ready(c, t, 0) && 0 < l < |t.levels| && p < |t.levels[l]|
    ensures ChildrenFrom(t, l, p, Off(t, l, p))
  {
    hide Blocks, BlocksOk;
    UpperReady(c, t, l);
    NodeFacts(c, t, l, p);
    OffNext(c, t, l, p);
    OffBounds(c, t, l, p, p + 1);
    assert LevelOk(c, t.disk, t.levels, l - 1);
    forall i | 0 <= i < |Node(t, l, p).entries|
      ensures Node(t, l, p).entries[i].rec == t.levels[l - 1][Off(t, l, p) + i] {
      ChildOf(c, t, l - 1, p, i);
    }
  }

  lemma SegOfNode(t: Tree, l: nat, p: nat)
    requires 0 < l < |t.levels| && p < |t.levels[l]| && Off(t, l, p) <= Off(t, l, p + 1) <= |t.levels[l - 1]|
    ensures SegBag(t, l, p, p + 1) == multiset{t.levels[l][p]} + SegBag(t, l - 1, Off(t, l, p), Off(t, l, p + 1))
    ensures SegRow(t, l, p, p + 1) == SegRow(t, l - 1, Off(t, l, p), Off(t, l, p + 1))
  {
    assert t.levels[l][p..p + 1] == [t.levels[l][p]];
  }

  lemma Leaf(c: Caps, t: Tree, p: nat)
    requires Ready(c, t, 0) && p < |t.levels[0]|
    ensures SegBag(t, 0, p, p + 1) == multiset{t.levels[0][p]}
    ensures SegRow(t, 0, p, p + 1) == Ents(t.disk, t.levels[0][p])
  {
    hide LevelOk, Blocks, BlocksOk, Flat;
    assert t.levels[0][p..p + 1] == [t.levels[0][p]];
    FlatOne(t.disk, t.levels[0][p]);
  }

  /** One more node on the right of a stretch. */
  lemma SegStep(c: Caps, t: Tree, l: nat, a: nat, b: nat)
    requires Ready(c, t, 0) && l < |t.levels| && a <= b < |t.levels[l]|
    ensures SegBag(t, l, a, b + 1) == SegBag(t, l, a, b) + SegBag(t, l, b, b + 1)
    ensures SegRow(t, l, a, b + 1) == SegRow(t, l, a, b) + SegRow(t, l, b, b + 1)
    ensures SegSize(t, l, a, b + 1) == SegSize(t, l, a, b) + SegSize(t, l, b, b + 1)
  {
    SegJoin(c, t, l, a, b, b + 1);
  }

  lemma SegLeaves(c: Caps, t: Tree, a: nat, b: nat)
    requires Ready(c, t, 0) && a <= b <= |t.levels[0]|
    ensures SegSize(t, 0, a, b) == b - a
  {}

  lemma {:induction false} SegEmpty(c: Caps, t: Tree, l: nat, a: nat)
    requires Ready(c, t, 0) && l < |t.levels| && a <= |t.levels[l]|
    ensures SegBag(t, l, a, a) == multiset{} && SegRow(t, l, a, a) == [] && SegSize(t, l, a, a) == 0
    decreases l
  {
    if l > 0 {
      OffBounds(c, t, l, a, a);
      SegEmpty(c, t, l - 1, Off(t, l, a));
    }
  }

  ghost function Bytes(length: nat, nodes: nat): nat {
    length * nodes
  }

  lemma BytesSum(length: nat, a: nat, b: nat)
    ensures Bytes(length, a + b) == Bytes(length, a) + Bytes(length, b)
  {}

  lemma BytesOf(length: nat, n: nat)
    ensures Bytes(length, 0) == 0 && Bytes(length, 1) == length && Bytes(length, n) == n * length
  {}

  lemma NotEmpty(c: Caps, t: Tree, l: nat)
    requires Ready(c, t, 0) && l < |t.levels|
    ensures t.levels[l] != []
  {
    assert LevelOk(c, t.disk, t.levels, l);
  }

  lemma RowIsChildren(c: Caps, t: Tree, l: nat)
    requires Ready(c, t, 0) && 0 < l < |t.levels|
    ensures |Row(t, l)| == |t.levels[l - 1]| && Recs(Row(t, l)) == t.levels[l - 1]
  {
    assert LevelOk(c, t.disk, t.levels, l - 1);
  }

  /** The last node of a row has the last node of the next row as its last child. */
  lemma LastChild(c: Caps, t: Tree, l: nat)
    requires Ready(c, t, 0) && l < |t.levels|
    ensures t.levels[l] != [] && IsNode(t, l, |t.levels[l]| - 1) && Node(t, l, |t.levels[l]| - 1).level == l
    ensures t.levels[0] != []
    ensures l > 0 ==> var es := Node(t, l, |t.levels[l]| - 1).entries;
      es != [] && es[|es| - 1].rec == LastOf(t.levels[l - 1])
  {
    hide Blocks, BlocksOk, Flat, RowOk;
    UpperReady(c, t, l);
    NotEmpty(c, t, l);
    NotEmpty(c, t, 0);
    var p: nat := |t.levels[l]| - 1;
    NodeFacts(c, t, l, p);
    if l > 0 {
      OffNext(c, t, l, p);
      OffBounds(c, t, l, p, p + 1);
      RowIsChildren(c, t, l);
      FlatAt(t.disk, t.levels[l], p);
      var es := Node(t, l, p).entries;
      assert Row(t, l)[Before(t, l, p) + |es| - 1] == es[|es| - 1];
    }
  }

  lemma LeafNotNull(c: Caps, t: Tree, p: nat)
    requires Ready(c, t, 0) && p <= |t.levels[0]|
    ensures p > 0 ==> t.levels[0][p - 1] != 0
  {
    if p > 0 {
      assert LevelOk(c, t.disk, t.levels, 0);
      assert NodeOk(c, t.disk, t.levels[0], 0, 0 == |t.levels| - 1, p - 1);
    }
  }

  function Reverse<T>(s: seq<T>): (r: seq<T>)
    ensures |r| == |s| && forall i :: 0 <= i < |s| ==> r[i] == s[|s| - 1 - i]
  {
    seq(|s|, i requires 0 <= i < |s| => s[|s| - 1 - i])
  }

  lemma ReverseConcat<T>(a: seq<T>, b: seq<T>)
    ensures Reverse(a + b) == Reverse(b) + Reverse(a)
  {}
}
