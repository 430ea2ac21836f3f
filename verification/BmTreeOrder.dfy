/** The order of keys across a tree, and when an insertion keeps it. */
module BmTreeOrder {
  import opened BmTreeModel
  import opened BmTreeShape
  import opened BmTreeBlocks
  import opened BmTreeLocate
  import I = BmTreeInsertLemmas

  function LastKey(es: seq<Entry>): int {
    if es == [] then 0 else es[|es| - 1].key
  }

  /** The separator to the right of node `q` of level `k`. */
  ghost function Sep(t: Tree, k: nat, q: nat): int {
    if k + 1 < |t.levels| && q < |Row(t, k + 1)| then Row(t, k + 1)[q].key else 0
  }

  /** The last key of a row separates nothing, and is never looked at. */
  ghost predicate SortedSeps(row: seq<Entry>) {
    forall i, j :: 0 <= i < j < |row| - 1 ==> row[i].key <= row[j].key
  }

  /** An inner node ends with the separator to its right. */
  ghost predicate EndsAtSep(t: Tree, k: nat, q: nat)
    requires k < |t.levels| && q < |t.levels[k]|
  {
    LastKey(Ents(t.disk, t.levels[k][q])) == Sep(t, k, q)
  }

  ghost predicate OrderedAt(t: Tree, k: nat)
    requires k < |t.levels|
  {
    && SortedSeps(Row(t, k))
    && forall q :: 0 <= q < |t.levels[k]| - 1 ==> EndsAtSep(t, k, q)
  }

  ghost predicate OrderedUp(t: Tree, l: nat) {
    forall k :: l <= k < |t.levels| ==> OrderedAt(t, k)
  }

  ghost predicate Sorted(es: seq<Entry>) {
    forall i, j :: 0 <= i < j < |es| ==> es[i].key <= es[j].key
  }

  /** A leaf is sorted and lies between its separators. */
  ghost predicate LeafOk(t: Tree, p: nat)
    requires t.levels != [] && p < |t.levels[0]|
  {
    var es := Ents(t.disk, t.levels[0][p]);
    && Sorted(es)
    && (p > 0 ==> forall i :: 0 <= i < |es| ==> Sep(t, 0, p - 1) <= es[i].key)
    && (p < |t.levels[0]| - 1 ==> forall i :: 0 <= i < |es| ==> es[i].key <= Sep(t, 0, p))
  }

  ghost predicate LeavesOk(t: Tree)
    requires t.levels != []
  {
    forall p :: 0 <= p < |t.levels[0]| ==> LeafOk(t, p)
  }

  ghost predicate Ordered(t: Tree) {
    t.levels != [] && OrderedUp(t, 1) && LeavesOk(t)
  }

  /** The key a full node hands to its parent when it splits. */
  ghost function HalfKey(c: Caps, l: nat, es: seq<Entry>): int {
    if 0 < Cap(c, l) / 2 <= |es| then es[Cap(c, l) / 2 - 1].key else 0
  }

  /**
   An entry with `key` inserted at index `idx` of the viewed node makes a node split right at the index of its pending
   entry: all nodes from here up to that one are full. The pending entry then goes left of a separator that is too low
   for it, unless its key is the separator.
   */
  ghost predicate Misfiles(c: Caps, d: Disk, v: View, l: nat, idx: nat, key: int)
    decreases v
  {
    var es := Ents(d, v.addr);
    && |es| >= Cap(c, l)
    && (|| (idx == Cap(c, l) / 2 && key != HalfKey(c, l, es))
        || MisfilesAbove(c, d, v, l))
  }

  /** Splitting the viewed full node misfiles something in the levels above. */
  ghost predicate MisfilesAbove(c: Caps, d: Disk, v: View, l: nat)
    decreases v, 0
  {
    v.Child? && Misfiles(c, d, v.parent, l + 1, v.index, HalfKey(c, l, Ents(d, v.addr)))
  }

  /** Splitting the viewed node, which is full, misfiles something in the levels above. */
  ghost predicate SplitsBadly(c: Caps, d: Disk, v: View, l: nat) {
    |Ents(d, v.addr)| >= Cap(c, l) && MisfilesAbove(c, d, v, l)
  }

  /** What is left of the order of a level when something was misfiled: separators are too low, but never too high. */
  ghost predicate Leans(t: Tree, k: nat)
    requires k < |t.levels|
  {
    && SortedSeps(Row(t, k))
    && forall q :: 0 <= q < |t.levels[k]| - 1 ==> Sep(t, k, q) <= LastKey(Ents(t.disk, t.levels[k][q]))
  }

  ghost predicate LeansUp(t: Tree, l: nat) {
    forall k :: l <= k < |t.levels| ==> Leans(t, k)
  }

  ghost predicate LeafLeans(t: Tree)
    requires t.levels != []
  {
    forall p, i :: 0 < p < |t.levels[0]| && 0 <= i < |LeafEnts(t, p)| ==> Sep(t, 0, p - 1) <= LeafEnts(t, p)[i].key
  }

  /** The last entry of node `q` of level `k` is above the separator to its right, the one before it is not. */
  ghost predicate MisfiledAt(t: Tree, k: nat, q: nat) {
    && k < |t.levels| && q < |t.levels[k]| - 1
    && var es := Ents(t.disk, t.levels[k][q]);
    && |es| >= 2 && es[|es| - 2].key == Sep(t, k, q) < es[|es| - 1].key
  }

  ghost predicate MisfiledFrom(t: Tree, l: nat) {
    exists k, q :: l <= k && MisfiledAt(t, k, q)
  }

  ghost predicate Fits(row: seq<Entry>, at: nat, key: int) {
    && at < |row|
    && (at > 0 ==> row[at - 1].key <= key)
    && (at < |row| - 1 ==> key <= row[at].key)
  }

  /** `key` may go to index `idx` of a leaf; `lo` and `hi` are its separators, where it has them. */
  ghost predicate FitsLeaf(es: seq<Entry>, idx: nat, key: int, hasLo: bool, lo: int, hasHi: bool, hi: int) {
    && idx <= |es|
    && (idx > 0 ==> es[idx - 1].key <= key)
    && (idx < |es| ==> key <= es[idx].key)
    && (hasLo ==> lo <= key)
    && (hasHi ==> key <= hi)
  }

  ghost function Lo(t: Tree, p: nat): int {
    if p > 0 then Sep(t, 0, p - 1) else 0
  }

  /** `key` may go to index `idx` of leaf `p`. */
  ghost predicate LeafFits(t: Tree, p: nat, idx: nat, key: int)
    requires t.levels != [] && p < |t.levels[0]|
  {
    FitsLeaf(Ents(t.disk, t.levels[0][p]), idx, key, p > 0, Lo(t, p), p < |t.levels[0]| - 1, Sep(t, 0, p))
  }

  /** An insertion that fits keeps the order from its level upwards exactly when it does not misfile. */
  ghost predicate Kept(st: Status, c: Caps, t: Tree, v: View, l: nat, p: nat, idx: nat, t': Tree, key: int) {
    st == OK && l < |t.levels| && p < |t.levels[l]| ==>
      if l > 0 then
        OrderedUp(t, l) && idx < |Ents(t.disk, v.addr)| && Fits(Row(t, l), Before(t, l, p) + idx, key)
        ==>
          && (OrderedUp(t', l) <==> !Misfiles(c, t.disk, v, l, idx, key))
          && LeansUp(t', l) && (Misfiles(c, t.disk, v, l, idx, key) ==> MisfiledFrom(t', l))
      else
        Ordered(t) && LeafFits(t, p, idx, key) ==>
          && (Ordered(t') <==> !Misfiles(c, t.disk, v, l, idx, key))
          && Leaning(t') && (SplitsBadly(c, t.disk, v, l) ==> MisfiledFrom(t', 1))
  }

  ghost predicate Leaning(t: Tree) {
    t.levels != [] && LeansUp(t, 1) && LeafLeans(t)
  }

  // ---- Frames ----

  lemma OrderedFrame(t: Tree, t': Tree, k: nat)
    requires k < |t.levels| == |t'.levels| && t'.levels[k] == t.levels[k] && OrderedAt(t, k)
    requires Row(t', k) == Row(t, k) && (k + 1 < |t.levels| ==> Row(t', k + 1) == Row(t, k + 1))
    requires forall x :: 0 <= x < |t.levels[k]| ==> Ents(t'.disk, t.levels[k][x]) == Ents(t.disk, t.levels[k][x])
    ensures OrderedAt(t', k)
  {
    forall q | 0 <= q < |t.levels[k]| - 1 ensures EndsAtSep(t', k, q) {
      assert EndsAtSep(t, k, q);
    }
  }

  lemma {:induction false} MisfilesFrame(c: Caps, t: Tree, t': Tree, v: View, l: nat, p: nat, idx: nat, key: int)
    requires ViewAt(t.disk, t.levels, v, l, p)
    requires forall k, x :: l <= k < |t.levels| && 0 <= x < |t.levels[k]| ==>
               Ents(t'.disk, t.levels[k][x]) == Ents(t.disk, t.levels[k][x])
    ensures Misfiles(c, t'.disk, v, l, idx, key) == Misfiles(c, t.disk, v, l, idx, key)
    decreases v
  {
    if v.Child? {
      var q: nat :| ParentAt(t.disk, t.levels, v.parent, v.index, l, p, q);
      MisfilesFrame(c, t, t', v.parent, l + 1, q, v.index, HalfKey(c, l, Ents(t.disk, v.addr)));
    }
  }

  // ---- Placing an entry in an inner node ----

  lemma SepsInsert(row: seq<Entry>, at: nat, e: Entry)
    requires SortedSeps(row) && Fits(row, at, e.key)
    ensures SortedSeps(InsertAt(row, at, e))
  {
    var row' := InsertAt(row, at, e);
    forall i, j | 0 <= i < j < |row'| - 1 ensures row'[i].key <= row'[j].key {
      assert row'[i] == (if i < at then row[i] else if i == at then e else row[i - 1]);
      assert row'[j] == (if j < at then row[j] else if j == at then e else row[j - 1]);
      if j == at {
        assert row[i].key <= row[at - 1].key;
      } else if i == at && j > at {
        assert row[at].key <= row[j - 1].key;
      }
    }
  }

  lemma PlaceFrame(c: Caps, t: Tree, l: nat, p: nat, idx: nat, e: Entry)
    requires Ready(c, t, l) && IsNode(t, l, p) && idx <= |Node(t, l, p).entries| < Cap(c, l)
    ensures var t' := I.Placing(t, l, p, idx, e);
      && (forall k, x :: l < k < |t.levels| && 0 <= x < |t.levels[k]| ==>
            Ents(t'.disk, t.levels[k][x]) == Ents(t.disk, t.levels[k][x]))
      && (forall k :: l < k < |t.levels| ==> Row(t', k) == Row(t, k))
      && (forall x :: 0 <= x < |t.levels[l]| && x != p ==>
            Ents(t'.disk, t.levels[l][x]) == Ents(t.disk, t.levels[l][x]))
      && Ents(t'.disk, t.levels[l][p]) == InsertAt(Node(t, l, p).entries, idx, e)
  {
    var t' := I.Placing(t, l, p, idx, e);
    forall k, x | l < k < |t.levels| && 0 <= x < |t.levels[k]|
      ensures Ents(t'.disk, t.levels[k][x]) == Ents(t.disk, t.levels[k][x]) {
      LevelsApart(c, t.disk, t.levels, t.root, l, k, x, l, p);
    }
    forall k | l < k < |t.levels| ensures Row(t', k) == Row(t, k) {
      PutFrame(c, t.disk, t.levels, t.root, l, p, InsertAt(Node(t, l, p).entries, idx, e), k);
    }
    assert LevelOk(c, t.disk, t.levels, l);
    Distinct(c, t.disk, t.levels[l], l, l == |t.levels| - 1);
  }

  /** The last key stays when `key` is inserted at `idx`. */
  ghost predicate EndsTheSame(es: seq<Entry>, idx: nat, key: int) {
    idx < |es| || (idx == |es| > 0 && key == LastKey(es))
  }

  /** Placing an entry changes nothing above its level. */
  lemma PlaceKeepsAbove(c: Caps, t: Tree, l: nat, p: nat, idx: nat, e: Entry)
    requires Ready(c, t, l) && IsNode(t, l, p) && idx <= |Node(t, l, p).entries| < Cap(c, l)
    ensures OrderedUp(I.Placing(t, l, p, idx, e), l + 1) <==> OrderedUp(t, l + 1)
    ensures forall q :: Sep(I.Placing(t, l, p, idx, e), l, q) == Sep(t, l, q)
  {
    hide Blocks, BlocksOk, Shape, OrderedAt;
    var t' := I.Placing(t, l, p, idx, e);
    PlaceFrame(c, t, l, p, idx, e);
    forall k | l < k < |t.levels| ensures OrderedAt(t', k) <==> OrderedAt(t, k) {
      if OrderedAt(t, k) { OrderedFrame(t, t', k); }
      if OrderedAt(t', k) { OrderedFrame(t', t, k); }
    }
  }

  lemma PlaceKeepsOrder(c: Caps, t: Tree, l: nat, p: nat, idx: nat, e: Entry)
    requires Ready(c, t, l) && 0 < l && IsNode(t, l, p) && |Node(t, l, p).entries| < Cap(c, l)
    requires EndsTheSame(Node(t, l, p).entries, idx, e.key)
    requires OrderedUp(t, l) && Fits(Row(t, l), Before(t, l, p) + idx, e.key)
    ensures OrderedUp(I.Placing(t, l, p, idx, e), l)
  {
    PlaceFrame(c, t, l, p, idx, e);
    forall k | l <= k < |t.levels| ensures OrderedAt(I.Placing(t, l, p, idx, e), k) {
      assert OrderedAt(t, k);
      if k > l {
        OrderedFrame(t, I.Placing(t, l, p, idx, e), k);
      } else {
        PlaceKeepsOrderHere(c, t, l, p, idx, e);
      }
    }
  }

  lemma PlaceKeepsOrderHere(c: Caps, t: Tree, l: nat, p: nat, idx: nat, e: Entry)
    requires Ready(c, t, l) && 0 < l && IsNode(t, l, p) && |Node(t, l, p).entries| < Cap(c, l)
    requires EndsTheSame(Node(t, l, p).entries, idx, e.key)
    requires OrderedAt(t, l) && Fits(Row(t, l), Before(t, l, p) + idx, e.key)
    ensures OrderedAt(I.Placing(t, l, p, idx, e), l)
  {
    hide Blocks, BlocksOk, Shape, InsertAt, Fits;
    var t' := I.Placing(t, l, p, idx, e);
    PlaceFrame(c, t, l, p, idx, e);
    PlaceRow(c, t, l, p, idx, e);
    SepsInsert(Row(t, l), Before(t, l, p) + idx, e);
    SameLastInsert(Node(t, l, p).entries, idx, e);
    forall q | 0 <= q < |t.levels[l]| - 1 ensures EndsAtSep(t', l, q) {
      assert EndsAtSep(t, l, q);
    }
  }

  lemma PlaceRow(c: Caps, t: Tree, l: nat, p: nat, idx: nat, e: Entry)
    requires Ready(c, t, l) && IsNode(t, l, p) && idx <= |Node(t, l, p).entries|
    ensures Before(t, l, p) + idx <= |Row(t, l)|
    ensures Row(I.Placing(t, l, p, idx, e), l) == InsertAt(Row(t, l), Before(t, l, p) + idx, e)
  {
    hide Blocks, BlocksOk;
    assert LevelOk(c, t.disk, t.levels, l);
    I.PlacedFlat(c, t.disk, t.levels[l], l, l == |t.levels| - 1, p, e, idx);
  }

  lemma SameLastInsert(es: seq<Entry>, idx: nat, e: Entry)
    requires EndsTheSame(es, idx, e.key)
    ensures LastKey(InsertAt(es, idx, e)) == LastKey(es)
  {}

  // ---- Placing an entry in a leaf ----

  lemma EntryInRow(t: Tree, l: nat, q: nat)
    requires l < |t.levels| && q < |t.levels[l]|
    ensures Before(t, l, q + 1) == Before(t, l, q) + |Ents(t.disk, t.levels[l][q])| <= |Row(t, l)|
    ensures q == |t.levels[l]| - 1 ==> Before(t, l, q + 1) == |Row(t, l)|
    ensures forall i :: 0 <= i < |Ents(t.disk, t.levels[l][q])| ==>
              Row(t, l)[Before(t, l, q) + i] == Ents(t.disk, t.levels[l][q])[i]
  {
    hide Flat, Ents;
    FlatAt(t.disk, t.levels[l], q);
    Between(Row(t, l),
      Flat(t.disk, t.levels[l][..q]), Ents(t.disk, t.levels[l][q]), Flat(t.disk, t.levels[l][q + 1..]));
    if q == |t.levels[l]| - 1 {
      assert t.levels[l][..q + 1] == t.levels[l];
    }
  }

  lemma Between(all: seq<Entry>, a: seq<Entry>, b: seq<Entry>, c: seq<Entry>)
    requires all == a + b + c
    ensures |a + b| == |a| + |b| <= |all|
    ensures forall i :: 0 <= i < |b| ==> all[|a| + i] == b[i]
  {}

  lemma SortedInsert(es: seq<Entry>, idx: nat, e: Entry)
    requires Sorted(es) && idx <= |es|
    requires (idx > 0 ==> es[idx - 1].key <= e.key) && (idx < |es| ==> e.key <= es[idx].key)
    ensures Sorted(InsertAt(es, idx, e))
  {
    var es' := InsertAt(es, idx, e);
    forall i, j | 0 <= i < j < |es'| ensures es'[i].key <= es'[j].key {
      assert es'[i] == (if i < idx then es[i] else if i == idx then e else es[i - 1]);
      assert es'[j] == (if j < idx then es[j] else if j == idx then e else es[j - 1]);
      if j == idx {
        assert es[i].key <= es[idx - 1].key;
      } else if i == idx {
        assert es[idx].key <= es[j - 1].key;
      }
    }
  }

  lemma PlaceKeepsLeaf(c: Caps, t: Tree, p: nat, idx: nat, e: Entry)
    requires Ready(c, t, 0) && IsNode(t, 0, p) && |Node(t, 0, p).entries| < Cap(c, 0)
    requires LeafOk(t, p) && LeafFits(t, p, idx, e.key)
    ensures LeafOk(I.Placing(t, 0, p, idx, e), p)
  {
    hide Blocks, BlocksOk, Shape;
    var es := Node(t, 0, p).entries;
    PlaceFrame(c, t, 0, p, idx, e);
    SortedInsert(es, idx, e);
    if p > 0 {
      InsertAbove(es, idx, e, Sep(t, 0, p - 1));
    }
    if p < |t.levels[0]| - 1 {
      InsertBelow(es, idx, e, Sep(t, 0, p));
    }
  }

  lemma InsertAbove(es: seq<Entry>, idx: nat, e: Entry, lo: int)
    requires idx <= |es| && lo <= e.key && forall i :: 0 <= i < |es| ==> lo <= es[i].key
    ensures forall i :: 0 <= i <= |es| ==> lo <= InsertAt(es, idx, e)[i].key
  {}

  lemma InsertBelow(es: seq<Entry>, idx: nat, e: Entry, hi: int)
    requires idx <= |es| && e.key <= hi && forall i :: 0 <= i < |es| ==> es[i].key <= hi
    ensures forall i :: 0 <= i <= |es| ==> InsertAt(es, idx, e)[i].key <= hi
  {}

  lemma PlaceKeepsLeaves(c: Caps, t: Tree, p: nat, idx: nat, e: Entry)
    requires Ready(c, t, 0) && IsNode(t, 0, p) && |Node(t, 0, p).entries| < Cap(c, 0)
    requires Ordered(t) && LeafFits(t, p, idx, e.key)
    ensures Ordered(I.Placing(t, 0, p, idx, e))
  {
    hide Blocks, BlocksOk;
    var t' := I.Placing(t, 0, p, idx, e);
    PlaceFrame(c, t, 0, p, idx, e);
    forall k | 1 <= k < |t.levels| ensures OrderedAt(t', k) {
      assert OrderedAt(t, k);
      OrderedFrame(t, t', k);
    }
    forall x | 0 <= x < |t.levels[0]| ensures LeafOk(t', x) {
      assert LeafOk(t, x);
      if x == p {
        PlaceKeepsLeaf(c, t, p, idx, e);
      }
    }
  }

  lemma OrderedLeans(t: Tree, l: nat)
    requires OrderedUp(t, l)
    ensures LeansUp(t, l)
  {
    hide SortedSeps;
    forall k | l <= k < |t.levels| ensures Leans(t, k) {
      assert OrderedAt(t, k);
      forall q | 0 <= q < |t.levels[k]| - 1 ensures Sep(t, k, q) <= LastKey(Ents(t.disk, t.levels[k][q])) {
        assert EndsAtSep(t, k, q);
      }
    }
  }

  lemma LeavesLean(t: Tree)
    requires Ordered(t)
    ensures Leaning(t)
  {
    OrderedLeans(t, 1);
    forall p, i | 0 < p < |t.levels[0]| && 0 <= i < |LeafEnts(t, p)| ensures Sep(t, 0, p - 1) <= LeafEnts(t, p)[i].key {
      assert LeafOk(t, p);
    }
  }

  lemma LeansFrame(t: Tree, t': Tree, k: nat)
    requires k < |t.levels| == |t'.levels| && t'.levels[k] == t.levels[k] && Leans(t, k)
    requires Row(t', k) == Row(t, k) && (k + 1 < |t.levels| ==> Row(t', k + 1) == Row(t, k + 1))
    requires forall x :: 0 <= x < |t.levels[k]| ==> Ents(t'.disk, t.levels[k][x]) == Ents(t.disk, t.levels[k][x])
    ensures Leans(t', k)
  {
    hide SortedSeps;
  }

  /** Placing an entry leaves what was misfiled above its level, and how the levels there lean. */
  lemma PlaceKeepsLeaning(c: Caps, t: Tree, l: nat, p: nat, idx: nat, e: Entry)
    requires Ready(c, t, l) && IsNode(t, l, p) && idx <= |Node(t, l, p).entries| < Cap(c, l)
    ensures LeansUp(t, l + 1) ==> LeansUp(I.Placing(t, l, p, idx, e), l + 1)
    ensures MisfiledFrom(t, l + 1) ==> MisfiledFrom(I.Placing(t, l, p, idx, e), l + 1)
  {
    hide Blocks, BlocksOk, Shape, Leans, Flat;
    var t' := I.Placing(t, l, p, idx, e);
    PlaceFrame(c, t, l, p, idx, e);
    if LeansUp(t, l + 1) {
      forall k | l < k < |t.levels| ensures Leans(t', k) {
        LeansFrame(t, t', k);
      }
    }
    if MisfiledFrom(t, l + 1) {
      var k, q :| l + 1 <= k && MisfiledAt(t, k, q);
      assert MisfiledAt(t', k, q);
    }
  }

  /** Placing an entry that fits in an inner node of an ordered level, be it too high for the separator. */
  lemma PlaceLeans(c: Caps, t: Tree, l: nat, p: nat, idx: nat, e: Entry)
    requires Ready(c, t, l) && 0 < l && IsNode(t, l, p) && idx <= |Node(t, l, p).entries| < Cap(c, l)
    requires idx == |Node(t, l, p).entries| ==> LastKey(Node(t, l, p).entries) <= e.key
    requires OrderedAt(t, l) && Fits(Row(t, l), Before(t, l, p) + idx, e.key)
    ensures Leans(I.Placing(t, l, p, idx, e), l)
  {
    hide Blocks, BlocksOk, Shape, InsertAt, Fits, Flat, LevelOk;
    var t' := I.Placing(t, l, p, idx, e);
    PlaceFrame(c, t, l, p, idx, e);
    PlaceRow(c, t, l, p, idx, e);
    SepsInsert(Row(t, l), Before(t, l, p) + idx, e);
    LastAfterInsert(Node(t, l, p).entries, idx, e);
    forall q | 0 <= q < |t.levels[l]| - 1 ensures Sep(t', l, q) <= LastKey(Ents(t'.disk, t.levels[l][q])) {
      assert EndsAtSep(t, l, q);
    }
  }

  lemma LastAfterInsert(es: seq<Entry>, idx: nat, e: Entry)
    requires idx <= |es|
    ensures LastKey(InsertAt(es, idx, e)) == if idx < |es| then LastKey(es) else e.key
  {}

  lemma PlacedKept(c: Caps, t: Tree, v: View, l: nat, p: nat, idx: nat, e: Entry)
    requires Ready(c, t, l) && ViewAt(t.disk, t.levels, v, l, p) && IsNode(t, l, p)
    requires idx <= |Node(t, l, p).entries| < Cap(c, l)
    ensures Kept(OK, c, t, v, l, p, idx, I.Placing(t, l, p, idx, e), e.key)
  {
    hide Shape, Blocks, BlocksOk, Ordered, OrderedUp, LeansUp, Leaning, LeafFits, Fits;
    var t' := I.Placing(t, l, p, idx, e);
    if l > 0 {
      if OrderedUp(t, l) && idx < |Node(t, l, p).entries| && Fits(Row(t, l), Before(t, l, p) + idx, e.key) {
        PlaceKeepsOrder(c, t, l, p, idx, e);
        OrderedLeans(t', l);
      }
    } else if Ordered(t) && LeafFits(t, p, idx, e.key) {
      PlaceKeepsLeaves(c, t, p, idx, e);
      LeavesLean(t');
    }
  }

  // ---- Splitting ----

  /** The middle key, which a split hands to the parent. */
  ghost function MidKey(t: Tree, l: nat, p: nat): int
    requires IsNode(t, l, p) && |Node(t, l, p).entries| >= 2
  {
    Node(t, l, p).entries[|Node(t, l, p).entries| / 2 - 1].key
  }

  /** Where node `p` of level `l` was split off `sib`, and what the level above says about it. */
  ghost predicate Parted(t: Tree, t2: Tree, l: nat, p: nat, sib: Address) {
    && IsNode(t, l, p) && |Node(t, l, p).entries| >= 2 && l + 1 < |t2.levels|
    && t2.levels[l] == InsertAt(t.levels[l], p, sib)
    && (forall x :: 0 <= x < |t.levels[l]| && x != p ==>
          Ents(t2.disk, t.levels[l][x]) == Ents(t.disk, t.levels[l][x]))
    && (if l + 1 < |t.levels| then
          |Row(t, l + 1)| == |t.levels[l]| && Row(t2, l + 1) == InsertAt(Row(t, l + 1), p, Entry(MidKey(t, l, p), sib))
        else
          |t.levels[l]| == 1 && Row(t2, l + 1) == [Entry(MidKey(t, l, p), sib), Entry(0, t.levels[l][0])])
  }

  /** The separators of the split level. */
  lemma PartedSeps(t: Tree, t2: Tree, l: nat, p: nat, sib: Address)
    requires Parted(t, t2, l, p, sib)
    ensures Sep(t2, l, p) == MidKey(t, l, p)
    ensures forall q :: 0 <= q < p ==> Sep(t2, l, q) == Sep(t, l, q)
    ensures forall q :: p <= q < |t.levels[l]| - 1 ==> Sep(t2, l, q + 1) == Sep(t, l, q)
  {}

  lemma PartedNodes(t: Tree, t2: Tree, l: nat, p: nat, sib: Address, q: nat)
    requires Parted(t, t2, l, p, sib) && q < |t.levels[l]| && q != p
    ensures q < p ==> Ents(t2.disk, t2.levels[l][q]) == Ents(t.disk, t.levels[l][q])
    ensures q > p ==> Ents(t2.disk, t2.levels[l][q + 1]) == Ents(t.disk, t.levels[l][q])
  {}

  lemma InnerHalves(c: Caps, t: Tree, t2: Tree, l: nat, p: nat, sib: Address)
    requires CapsOk(c) && I.Split(OK, c, t, t2, l, p, sib) && Parted(t, t2, l, p, sib) && OrderedAt(t, l)
    ensures OrderedAt(t2, l)
  {
    hide Blocks, BlocksOk, Shape;
    PartedSeps(t, t2, l, p, sib);
    forall q | 0 <= q < |t2.levels[l]| - 1 ensures EndsAtSep(t2, l, q) {
      if q < p {
        PartedNodes(t, t2, l, p, sib, q);
        assert EndsAtSep(t, l, q);
      } else if q > p {
        if q > p + 1 { PartedNodes(t, t2, l, p, sib, q - 1); }
        assert EndsAtSep(t, l, q - 1);
        assert Sep(t2, l, (q - 1) + 1) == Sep(t, l, q - 1);
      }
    }
  }

  lemma LeafHalves(c: Caps, t: Tree, t2: Tree, p: nat, sib: Address)
    requires CapsOk(c) && I.Split(OK, c, t, t2, 0, p, sib) && Parted(t, t2, 0, p, sib) && LeavesOk(t)
    ensures LeavesOk(t2)
  {
    hide Blocks, BlocksOk, Shape;
    PartedSeps(t, t2, 0, p, sib);
    forall q | 0 <= q < |t2.levels[0]| ensures LeafOk(t2, q) {
      if q < p {
        PartedNodes(t, t2, 0, p, sib, q);
        assert LeafOk(t, q);
      } else if q > p + 1 {
        PartedNodes(t, t2, 0, p, sib, q - 1);
        assert LeafOk(t, q - 1);
        assert Sep(t2, 0, (q - 2) + 1) == Sep(t, 0, q - 2);
        assert q - 1 < |t.levels[0]| - 1 ==> Sep(t2, 0, (q - 1) + 1) == Sep(t, 0, q - 1);
      } else {
        assert LeafOk(t, p);
        assert p < |t.levels[0]| - 1 ==> Sep(t2, 0, p + 1) == Sep(t, 0, p);
        if q == p { LeftHalfOk(t, t2, p, sib); } else { RightHalfOk(t, t2, p, sib); }
      }
    }
  }

  lemma LeftHalfOk(t: Tree, t2: Tree, p: nat, sib: Address)
    requires Parted(t, t2, 0, p, sib) && LeafOk(t, p)
    requires var es := Node(t, 0, p).entries; IsNode(t2, 0, p) && Node(t2, 0, p).entries == es[..|es| / 2]
    requires Sep(t2, 0, p) == MidKey(t, 0, p) && (p > 0 ==> Sep(t2, 0, p - 1) == Sep(t, 0, p - 1))
    ensures LeafOk(t2, p)
  {}

  lemma RightHalfOk(t: Tree, t2: Tree, p: nat, sib: Address)
    requires Parted(t, t2, 0, p, sib) && LeafOk(t, p)
    requires var es := Node(t, 0, p).entries; IsNode(t2, 0, p + 1) && Node(t2, 0, p + 1).entries == es[|es| / 2..]
    requires Sep(t2, 0, p) == MidKey(t, 0, p) && (p < |t.levels[0]| - 1 ==> Sep(t2, 0, p + 1) == Sep(t, 0, p))
    ensures LeafOk(t2, p + 1)
  {}

  /** The middle key of a full node fits where the parent will file it. */
  lemma MidKeyFits(c: Caps, t: Tree, l: nat, p: nat)
    requires Ready(c, t, l) && l + 1 < |t.levels| && IsNode(t, l, p) && |Node(t, l, p).entries| == Cap(c, l)
    requires if l > 0 then OrderedAt(t, l) else LeavesOk(t)
    ensures Fits(Row(t, l + 1), p, MidKey(t, l, p))
  {
    hide Blocks, BlocksOk, Flat, OrderedAt;
    assert LevelOk(c, t.disk, t.levels, l);
    assert |Recs(Row(t, l + 1))| == |t.levels[l]|;
    if l == 0 {
      assert LeafOk(t, p);
    } else {
      MidInRow(c, t, l, p);
    }
  }

  lemma MidInRow(c: Caps, t: Tree, l: nat, p: nat)
    requires Ready(c, t, l) && IsNode(t, l, p) && |Node(t, l, p).entries| == Cap(c, l) && OrderedAt(t, l)
    ensures p > 0 ==> Sep(t, l, p - 1) <= MidKey(t, l, p)
    ensures p < |t.levels[l]| - 1 ==> MidKey(t, l, p) <= Sep(t, l, p)
  {
    hide Blocks, BlocksOk, Shape, Flat, LevelOk;
    EntryInRow(t, l, p);
    var es, n := Node(t, l, p).entries, |Node(t, l, p).entries| / 2;
    assert Row(t, l)[Before(t, l, p) + (n - 1)] == es[n - 1];
    if p > 0 {
      LastBefore(c, t, l, p);
    }
    if p < |t.levels[l]| - 1 {
      NodeFacts(c, t, l, p + 1);
      EntryInRow(t, l, p + 1);
      assert EndsAtSep(t, l, p);
      assert Row(t, l)[Before(t, l, p) + (|es| - 1)] == es[|es| - 1];
    }
  }

  lemma HalfFits(es: seq<Entry>, idx: nat, key: int, hasLo: bool, lo: int, hasHi: bool, hi: int)
    requires Sorted(es) && |es| >= 2 && FitsLeaf(es, idx, key, hasLo, lo, hasHi, hi)
    requires idx == |es| / 2 ==> key == es[idx - 1].key
    ensures var n := |es| / 2; var mid := es[n - 1].key;
      if idx <= n then FitsLeaf(es[..n], idx, key, hasLo, lo, true, mid)
      else FitsLeaf(es[n..], idx - n, key, true, mid, hasHi, hi)
  {
    var n := |es| / 2;
    if idx > n {
      assert es[n - 1].key <= es[idx - 1].key;
    } else if idx < n {
      assert es[idx].key <= es[n - 1].key;
    }
  }

  /** The pending entry of a leaf fits in the half it goes to. */
  lemma PendingFits(c: Caps, t: Tree, t2: Tree, p: nat, sib: Address, idx: nat, key: int)
    requires CapsOk(c) && I.Split(OK, c, t, t2, 0, p, sib) && Parted(t, t2, 0, p, sib)
    requires |Node(t, 0, p).entries| == Cap(c, 0)
    requires LeafOk(t, p) && LeafFits(t, p, idx, key) && (idx == Cap(c, 0) / 2 ==> key == MidKey(t, 0, p))
    ensures idx <= Cap(c, 0) / 2 ==> LeafFits(t2, p, idx, key)
    ensures idx > Cap(c, 0) / 2 ==> LeafFits(t2, p + 1, idx - Cap(c, 0) / 2, key)
  {
    hide Blocks, BlocksOk, Shape, FitsLeaf, LeafOk, LevelOk, Flat;
    var es := Node(t, 0, p).entries;
    SortedLeaf(t, p);
    HalfFits(es, idx, key, p > 0, Lo(t, p), p < |t.levels[0]| - 1, Sep(t, 0, p));
    if idx <= Cap(c, 0) / 2 {
      PendingLeft(c, t, t2, p, sib, idx, key);
    } else {
      PendingRight(c, t, t2, p, sib, idx, key);
    }
  }

  lemma PendingLeft(c: Caps, t: Tree, t2: Tree, p: nat, sib: Address, idx: nat, key: int)
    requires CapsOk(c) && I.Split(OK, c, t, t2, 0, p, sib) && Parted(t, t2, 0, p, sib)
    requires var es := Node(t, 0, p).entries; FitsLeaf(es[..|es| / 2], idx, key, p > 0, Lo(t, p), true, MidKey(t, 0, p))
    ensures LeafFits(t2, p, idx, key)
  {
    hide Blocks, BlocksOk, Shape, FitsLeaf, LevelOk, Flat;
    PartedSeps(t, t2, 0, p, sib);
    if p == 0 {
      var es := Node(t, 0, p).entries;
      NoLo(es[..|es| / 2], idx, key, Lo(t, p), Lo(t2, p), true, MidKey(t, 0, p));
    }
  }

  lemma PendingRight(c: Caps, t: Tree, t2: Tree, p: nat, sib: Address, idx: nat, key: int)
    requires CapsOk(c) && I.Split(OK, c, t, t2, 0, p, sib) && Parted(t, t2, 0, p, sib)
    requires var es := Node(t, 0, p).entries;
             && idx >= |es| / 2
             && FitsLeaf(es[|es| / 2..], idx - |es| / 2, key, true, MidKey(t, 0, p), p < |t.levels[0]| - 1,
                         Sep(t, 0, p))
    ensures LeafFits(t2, p + 1, idx - |Node(t, 0, p).entries| / 2, key)
  {
    hide Blocks, BlocksOk, Shape, FitsLeaf, LevelOk, Flat;
    PartedSeps(t, t2, 0, p, sib);
    if p == |t.levels[0]| - 1 {
      var es := Node(t, 0, p).entries;
      NoHi(es[|es| / 2..], idx - |es| / 2, key, true, MidKey(t, 0, p), Sep(t, 0, p), Sep(t2, 0, p + 1));
    } else {
      assert Sep(t2, 0, p + 1) == Sep(t, 0, p);
    }
  }

  lemma SortedLeaf(t: Tree, p: nat)
    requires t.levels != [] && p < |t.levels[0]| && LeafOk(t, p)
    ensures Sorted(Ents(t.disk, t.levels[0][p]))
  {}

  lemma NoHi(es: seq<Entry>, idx: int, key: int, hasLo: bool, lo: int, hi: int, hi': int)
    ensures idx >= 0 ==> FitsLeaf(es, idx, key, hasLo, lo, false, hi) == FitsLeaf(es, idx, key, hasLo, lo, false, hi')
  {}

  lemma NoLo(es: seq<Entry>, idx: nat, key: int, lo: int, lo': int, hasHi: bool, hi: int)
    ensures FitsLeaf(es, idx, key, false, lo, hasHi, hi) == FitsLeaf(es, idx, key, false, lo', hasHi, hi)
  {}

  /** What the part of a split before the pending entry is placed does to the order. */
  ghost predicate HalvedKept(st: Status, c: Caps, t: Tree, v: View, l: nat, p: nat, t2: Tree, sib: Address) {
    st == OK ==>
      && Parted(t, t2, l, p, sib)
      && (&& OrderedUp(t, l + 1)
          && (l + 1 < |t.levels| ==> Fits(Row(t, l + 1), p, MidKey(t, l, p)))
          ==>
            && (OrderedUp(t2, l + 1) <==> !MisfilesAbove(c, t.disk, v, l))
            && LeansUp(t2, l + 1) && (MisfilesAbove(c, t.disk, v, l) ==> MisfiledFrom(t2, l + 1)))
  }

  lemma HalvedUnderParent(st: Status, c: Caps, t: Tree, v: View, l: nat, p: nat, q: nat, t2: Tree)
    requires I.CanHalve(c, t, l, p) && v.Child? && ViewAt(t.disk, t.levels, v, l, p)
    requires ParentAt(I.Halving(t, l, p).disk, I.Halving(t, l, p).levels, v.parent, v.index, l, p, q)
    requires var t1, e := I.Halving(t, l, p), Entry(MidKey(t, l, p), t.pool[|t.pool| - 1]);
             && I.Inserted(st, c, t1, t2, l + 1, p, e)
             && Kept(st, c, t1, v.parent, l + 1, q, v.index, t2, e.key)
    ensures HalvedKept(st, c, t, v, l, p, t2, t.pool[|t.pool| - 1])
  {
    if st == OK {
      hide Ready, Misfiles, MisfilesAbove, I.Inserted, OrderedUp, Parted, Flat, ViewAt, I.CanHalve, I.Halving;
      PartedUnderParent(c, t, l, p, t2);
      MisfilesBack(c, t, v, l, p, q);
      HalvingKeepsAbove(c, t, l, p);
      AtParent(c, t, v, l, p, q);
    }
  }

  /** Where the parent of the split node will file the new sibling. */
  lemma AtParent(c: Caps, t: Tree, v: View, l: nat, p: nat, q: nat)
    requires I.CanHalve(c, t, l, p) && v.Child? && ViewAt(t.disk, t.levels, v, l, p)
    requires ParentAt(I.Halving(t, l, p).disk, I.Halving(t, l, p).levels, v.parent, v.index, l, p, q)
    ensures var t1 := I.Halving(t, l, p);
      && l + 1 < |t.levels| == |t1.levels| && q < |t1.levels[l + 1]|
      && v.index < |Ents(t1.disk, v.parent.addr)| && Before(t1, l + 1, q) + v.index == p
      && Row(t1, l + 1) == Row(t, l + 1)
  {
    hide Blocks, BlocksOk, Shape;
    UpperSame(c, t, l, p);
  }

  lemma MisfilesBack(c: Caps, t: Tree, v: View, l: nat, p: nat, q: nat)
    requires I.CanHalve(c, t, l, p) && v.Child? && ViewAt(t.disk, t.levels, v, l, p)
    requires ParentAt(I.Halving(t, l, p).disk, I.Halving(t, l, p).levels, v.parent, v.index, l, p, q)
    ensures MisfilesAbove(c, t.disk, v, l)
       <==> Misfiles(c, I.Halving(t, l, p).disk, v.parent, l + 1, v.index, MidKey(t, l, p))
  {
    hide Blocks, BlocksOk, Shape, Misfiles, Flat;
    UpperSame(c, t, l, p);
    MisfilesFrame(c, I.Halving(t, l, p), t, v.parent, l + 1, q, v.index, MidKey(t, l, p));
  }

  lemma HalvingKeepsAbove(c: Caps, t: Tree, l: nat, p: nat)
    requires I.CanHalve(c, t, l, p)
    ensures OrderedUp(t, l + 1) ==> OrderedUp(I.Halving(t, l, p), l + 1)
  {
    hide Blocks, BlocksOk, LevelOk, OrderedAt, Flat;
    UpperSame(c, t, l, p);
    if OrderedUp(t, l + 1) {
      forall k | l + 1 <= k < |t.levels| ensures OrderedAt(I.Halving(t, l, p), k) {
        assert OrderedAt(t, k);
        OrderedFrame(t, I.Halving(t, l, p), k);
      }
    }
  }

  lemma UpperSame(c: Caps, t: Tree, l: nat, p: nat)
    requires I.CanHalve(c, t, l, p)
    ensures var t1 := I.Halving(t, l, p);
      && (forall k, x :: l < k < |t.levels| && 0 <= x < |t.levels[k]| ==>
            Ents(t1.disk, t.levels[k][x]) == Ents(t.disk, t.levels[k][x]))
      && (forall k :: l < k < |t.levels| ==> Row(t1, k) == Row(t, k))
  {
    hide Blocks, BlocksOk;
    var t1 := I.Halving(t, l, p);
    I.HalvingFrame(c, t, l, p);
    forall k | l < k < |t.levels|
      ensures Row(t1, k) == Row(t, k)
      ensures forall x :: 0 <= x < |t.levels[k]| ==> Ents(t1.disk, t.levels[k][x]) == Ents(t.disk, t.levels[k][x]) {
      assert LevelOk(c, t.disk, t.levels, k);
      RowFrame(c, t.disk, t1.disk, t.levels[k], k, k == |t.levels| - 1);
      Distinct(c, t.disk, t.levels[k], k, k == |t.levels| - 1);
    }
  }

  /** A split leaves the other nodes of its row alone. */
  lemma HalvingKeepsNodes(c: Caps, t: Tree, l: nat, p: nat)
    requires I.CanHalve(c, t, l, p)
    ensures forall x :: 0 <= x < |t.levels[l]| && x != p ==>
              t.levels[l][x] in t.disk && t.levels[l][x] in I.Halving(t, l, p).disk
              && I.Halving(t, l, p).disk[t.levels[l][x]] == t.disk[t.levels[l][x]]
  {
    TopIsFree(t.pool, t.levels);
    assert LevelOk(c, t.disk, t.levels, l);
    Distinct(c, t.disk, t.levels[l], l, l == |t.levels| - 1);
  }

  lemma PartedUnderParent(c: Caps, t: Tree, l: nat, p: nat, t2: Tree)
    requires I.CanHalve(c, t, l, p) && l + 1 < |t.levels|
    requires I.Inserted(OK, c, I.Halving(t, l, p), t2, l + 1, p, Entry(MidKey(t, l, p), t.pool[|t.pool| - 1]))
    ensures Parted(t, t2, l, p, t.pool[|t.pool| - 1])
  {
    hide Blocks, BlocksOk, LevelOk, RowOk;
    var t1, sib := I.Halving(t, l, p), t.pool[|t.pool| - 1];
    UpperSame(c, t, l, p);
    HalvingKeepsNodes(c, t, l, p);
    I.HalvingReady(c, t, l, p);
    assert |Recs(Row(t1, l + 1))| == |t.levels[l]|;
    assert t2.levels[l] == t2.levels[..l + 1][l] == t1.levels[..l + 1][l];
    assert SameRow(t1.disk, t2.disk, t1.levels[l]);
    forall x: nat | x < |t.levels[l]| && x != p ensures Ents(t2.disk, t.levels[l][x]) == Ents(t.disk, t.levels[l][x]) {
      var y := if x < p then x else x + 1;
      assert t1.levels[l][y] == t.levels[l][x];
    }
  }

  lemma HalvedRoot(c: Caps, t: Tree, v: View, l: nat)
    requires I.CanHalve(c, t, l, 0) && l == |t.levels| - 1 && |t.pool| > 1 && v.Top?
    ensures var sib := t.pool[|t.pool| - 1];
      HalvedKept(OK, c, t, v, l, 0, I.Crowning(I.Halving(t, l, 0), MidKey(t, l, 0), sib, t.levels[l][0]), sib)
  {
    var t1, sib := I.Halving(t, l, 0), t.pool[|t.pool| - 1];
    var t2 := I.Crowning(t1, MidKey(t, l, 0), sib, t.levels[l][0]);
    NodeFacts(c, t, l, 0);
    FlatOne(t2.disk, t2.root);
    assert t2.levels[l + 1] == [t2.root];
    assert t1.levels[l] == [sib, t.levels[l][0]];
  }

  /** Placing the pending entry of a split keeps the order exactly when nothing is misfiled. */
  lemma SplitKept(c: Caps, t: Tree, v: View, l: nat, p: nat, t2: Tree, sib: Address, idx: nat, e: Entry)
    requires Ready(c, t, l) && ViewAt(t.disk, t.levels, v, l, p)
    requires I.Split(OK, c, t, t2, l, p, sib) && HalvedKept(OK, c, t, v, l, p, t2, sib)
    requires idx <= |Node(t, l, p).entries| == Cap(c, l)
    ensures Kept(OK, c, t, v, l, p, idx, I.PlacingPending(t2, l, p, idx, Cap(c, l) / 2, e), e.key)
  {
    hide Blocks, BlocksOk, Shape, Misfiles, MisfilesAbove, OrderedAt, LeafFits, Fits, I.Split, HalvedKept;
    hide LeansUp, Leaning, MisfiledFrom;
    if l == 0 {
      if Ordered(t) && LeafFits(t, p, idx, e.key) {
        if Misfiles(c, t.disk, v, l, idx, e.key) {
          SplitMisfiles(c, t, v, l, p, t2, sib, idx, e);
        } else {
          SplitKeepsLeaves(c, t, v, p, t2, sib, idx, e);
        }
        SplitLeavesLean(c, t, v, p, t2, sib, idx, e);
      }
    } else if OrderedUp(t, l) && idx < Cap(c, l) && Fits(Row(t, l), Before(t, l, p) + idx, e.key) {
      if Misfiles(c, t.disk, v, l, idx, e.key) {
        SplitMisfiles(c, t, v, l, p, t2, sib, idx, e);
        SplitLeans(c, t, v, l, p, t2, sib, idx, e);
      } else {
        SplitKeepsOrder(c, t, v, l, p, t2, sib, idx, e);
      }
    }
  }

  lemma SplitLeavesLean(c: Caps, t: Tree, v: View, p: nat, t2: Tree, sib: Address, idx: nat, e: Entry)
    requires Ready(c, t, 0) && ViewAt(t.disk, t.levels, v, 0, p)
    requires I.Split(OK, c, t, t2, 0, p, sib) && HalvedKept(OK, c, t, v, 0, p, t2, sib)
    requires idx <= |Node(t, 0, p).entries| == Cap(c, 0)
    requires Ordered(t) && LeafFits(t, p, idx, e.key)
    ensures var t' := I.PlacingPending(t2, 0, p, idx, Cap(c, 0) / 2, e);
            Leaning(t') && (SplitsBadly(c, t.disk, v, 0) ==> MisfiledFrom(t', 1))
  {
    hide Blocks, BlocksOk, Shape, OrderedAt, Fits, LevelOk, Flat, LeafFits, LeafLeans, LeansUp, MisfiledFrom,
         MisfilesAbove;
    var n := Cap(c, 0) / 2;
    SplitAbove(c, t, v, 0, p, t2, sib);
    LeafHalves(c, t, t2, p, sib);
    PendingAbove(c, t, t2, p, sib, idx, e.key);
    if idx <= n {
      PlaceKeepsLeaning(c, t2, 0, p, idx, e);
      PlaceLeansLeaf(c, t2, p, idx, e);
    } else {
      PlaceKeepsLeaning(c, t2, 0, p + 1, idx - n, e);
      PlaceLeansLeaf(c, t2, p + 1, idx - n, e);
    }
  }

  /** The pending entry of a leaf is not below the separator to the left of the half it goes to. */
  lemma PendingAbove(c: Caps, t: Tree, t2: Tree, p: nat, sib: Address, idx: nat, key: int)
    requires CapsOk(c) && I.Split(OK, c, t, t2, 0, p, sib) && Parted(t, t2, 0, p, sib)
    requires idx <= |Node(t, 0, p).entries| == Cap(c, 0) && LeafOk(t, p) && LeafFits(t, p, idx, key)
    ensures if idx <= Cap(c, 0) / 2 then p > 0 ==> Sep(t2, 0, p - 1) <= key else Sep(t2, 0, p) <= key
  {
    hide Blocks, BlocksOk, Shape, LevelOk, Flat;
    PartedSeps(t, t2, 0, p, sib);
    var es := Node(t, 0, p).entries;
    if idx > Cap(c, 0) / 2 {
      assert es[Cap(c, 0) / 2 - 1].key <= es[idx - 1].key;
    }
  }

  lemma PlaceLeansLeaf(c: Caps, t: Tree, p: nat, idx: nat, e: Entry)
    requires Ready(c, t, 0) && IsNode(t, 0, p) && idx <= |Node(t, 0, p).entries| < Cap(c, 0)
    requires LeavesOk(t) && (p > 0 ==> Sep(t, 0, p - 1) <= e.key)
    ensures LeafLeans(I.Placing(t, 0, p, idx, e))
  {
    hide Blocks, BlocksOk, Shape, LevelOk, Flat, InsertAt;
    var t' := I.Placing(t, 0, p, idx, e);
    PlaceFrame(c, t, 0, p, idx, e);
    PlaceKeepsAbove(c, t, 0, p, idx, e);
    forall x, i | 0 < x < |t'.levels[0]| && 0 <= i < |LeafEnts(t', x)|
      ensures Sep(t', 0, x - 1) <= LeafEnts(t', x)[i].key {
      assert LeafOk(t, x);
      if x == p {
        InsertAbove(Node(t, 0, p).entries, idx, e, Sep(t, 0, x - 1));
        InsertLength(Node(t, 0, p).entries, idx, e);
      }
    }
  }

  lemma InsertLength(es: seq<Entry>, idx: nat, e: Entry)
    requires idx <= |es|
    ensures |InsertAt(es, idx, e)| == |es| + 1
  {}

  lemma SplitLeans(c: Caps, t: Tree, v: View, l: nat, p: nat, t2: Tree, sib: Address, idx: nat, e: Entry)
    requires Ready(c, t, l) && ViewAt(t.disk, t.levels, v, l, p) && 0 < l
    requires I.Split(OK, c, t, t2, l, p, sib) && HalvedKept(OK, c, t, v, l, p, t2, sib)
    requires idx < |Node(t, l, p).entries| == Cap(c, l) && Misfiles(c, t.disk, v, l, idx, e.key)
    requires OrderedUp(t, l) && Fits(Row(t, l), Before(t, l, p) + idx, e.key)
    ensures var t' := I.PlacingPending(t2, l, p, idx, Cap(c, l) / 2, e); LeansUp(t', l) && MisfiledFrom(t', l)
  {
    hide Blocks, BlocksOk, Shape, OrderedAt, Fits, LevelOk, Flat, MisfilesAbove, Leans, MisfiledFrom;
    var t', n := I.PlacingPending(t2, l, p, idx, Cap(c, l) / 2, e), Cap(c, l) / 2;
    SplitAbove(c, t, v, l, p, t2, sib);
    SplitLeansHere(c, t, v, l, p, t2, sib, idx, e);
    if idx <= n {
      PlaceKeepsLeaning(c, t2, l, p, idx, e);
    } else {
      PlaceKeepsLeaning(c, t2, l, p + 1, idx - n, e);
    }
    if MisfilesAbove(c, t.disk, v, l) {
      FromLower(t', l);
    } else {
      MisfilesHere(c, t.disk, v, l, idx, e.key);
      MisfiledHere(c, t, l, p, t2, sib, idx, e);
    }
  }

  lemma FromLower(t: Tree, l: nat)
    requires MisfiledFrom(t, l + 1)
    ensures MisfiledFrom(t, l)
  {
    var k, q :| l + 1 <= k && MisfiledAt(t, k, q);
    assert l <= k;
  }

  lemma SplitLeansHere(c: Caps, t: Tree, v: View, l: nat, p: nat, t2: Tree, sib: Address, idx: nat, e: Entry)
    requires Ready(c, t, l) && 0 < l
    requires I.Split(OK, c, t, t2, l, p, sib) && HalvedKept(OK, c, t, v, l, p, t2, sib)
    requires idx < |Node(t, l, p).entries| == Cap(c, l)
    requires OrderedUp(t, l) && Fits(Row(t, l), Before(t, l, p) + idx, e.key)
    ensures Leans(I.PlacingPending(t2, l, p, idx, Cap(c, l) / 2, e), l)
  {
    hide Blocks, BlocksOk, Shape, OrderedAt, LevelOk, Flat, Leans, OrderedUp, Fits, InsertAt;
    var n := Cap(c, l) / 2;
    assert OrderedAt(t, l) by { OneLevel(t, l); }
    InnerHalves(c, t, t2, l, p, sib);
    EntryInRow(t2, l, p);
    if idx <= n {
      NotBelowLast(c, t, l, p, idx, e.key);
      PlaceLeans(c, t2, l, p, idx, e);
    } else {
      PlaceLeans(c, t2, l, p + 1, idx - n, e);
    }
  }

  lemma OneLevel(t: Tree, l: nat)
    requires OrderedUp(t, l) && l < |t.levels|
    ensures OrderedAt(t, l)
  {}

  /** A key that fits behind the first half of a node is not below the last key of that half. */
  lemma NotBelowLast(c: Caps, t: Tree, l: nat, p: nat, idx: nat, key: int)
    requires IsNode(t, l, p) && idx <= |Node(t, l, p).entries| && Fits(Row(t, l), Before(t, l, p) + idx, key)
    ensures idx > 0 ==> LastKey(Node(t, l, p).entries[..idx]) <= key
  {
    EntryInRow(t, l, p);
    if idx > 0 {
      assert Row(t, l)[Before(t, l, p) + (idx - 1)] == Node(t, l, p).entries[idx - 1];
    }
  }

  lemma MisfiledHere(c: Caps, t: Tree, l: nat, p: nat, t2: Tree, sib: Address, idx: nat, e: Entry)
    requires Ready(c, t, l) && I.Split(OK, c, t, t2, l, p, sib) && Parted(t, t2, l, p, sib)
    requires |Node(t, l, p).entries| == Cap(c, l) && idx == Cap(c, l) / 2 && e.key != MidKey(t, l, p)
    requires Fits(Row(t, l), Before(t, l, p) + idx, e.key)
    ensures MisfiledFrom(I.Placing(t2, l, p, idx, e), l)
  {
    hide Blocks, BlocksOk, Shape, Fits, LevelOk, Flat;
    NotBelowLast(c, t, l, p, idx, e.key);
    PartedSeps(t, t2, l, p, sib);
    PlaceFrame(c, t2, l, p, idx, e);
    PlaceKeepsAbove(c, t2, l, p, idx, e);
    var es := Ents(I.Placing(t2, l, p, idx, e).disk, t2.levels[l][p]);
    assert es[idx] == e && |es| == idx + 1 && es[idx - 1] == Node(t, l, p).entries[idx - 1];
    assert MisfiledAt(I.Placing(t2, l, p, idx, e), l, p);
  }

  /** A misfiled entry spoils the order of its own level, and splitting may spoil that of the levels above. */
  lemma SplitMisfiles(c: Caps, t: Tree, v: View, l: nat, p: nat, t2: Tree, sib: Address, idx: nat, e: Entry)
    requires Ready(c, t, l) && ViewAt(t.disk, t.levels, v, l, p)
    requires I.Split(OK, c, t, t2, l, p, sib) && HalvedKept(OK, c, t, v, l, p, t2, sib)
    requires idx <= |Node(t, l, p).entries| == Cap(c, l) && Misfiles(c, t.disk, v, l, idx, e.key)
    requires if l == 0 then Ordered(t) && LeafFits(t, p, idx, e.key) else OrderedUp(t, l)
    ensures var t' := I.PlacingPending(t2, l, p, idx, Cap(c, l) / 2, e);
            if l == 0 then !Ordered(t') else !OrderedUp(t', l)
  {
    hide Blocks, BlocksOk, Shape, OrderedAt, Fits, LeafFits, LevelOk, LeafOk, Flat, OrderedUp;
    if MisfilesAbove(c, t.disk, v, l) {
      SplitAbove(c, t, v, l, p, t2, sib);
      PendingKeepsAbove(c, t, l, p, t2, sib, idx, e);
    } else {
      MisfilesHere(c, t.disk, v, l, idx, e.key);
      TooHigh(c, t, l, p, t2, sib, idx, e);
      Spoiled(I.Placing(t2, l, p, idx, e), l, p);
    }
  }

  lemma MisfilesHere(c: Caps, d: Disk, v: View, l: nat, idx: nat, key: int)
    requires Misfiles(c, d, v, l, idx, key) && !MisfilesAbove(c, d, v, l)
    ensures idx == Cap(c, l) / 2 && key != HalfKey(c, l, Ents(d, v.addr))
  {}

  lemma Spoiled(t: Tree, l: nat, p: nat)
    requires l < |t.levels| && p < |t.levels[l]| && if l == 0 then !LeafOk(t, p) else !OrderedAt(t, l)
    ensures if l == 0 then !Ordered(t) else !OrderedUp(t, l)
  {}

  lemma PendingKeepsAbove(c: Caps, t: Tree, l: nat, p: nat, t2: Tree, sib: Address, idx: nat, e: Entry)
    requires CapsOk(c) && I.Split(OK, c, t, t2, l, p, sib) && idx <= |Node(t, l, p).entries| == Cap(c, l)
    requires !OrderedUp(t2, l + 1)
    ensures var t' := I.PlacingPending(t2, l, p, idx, Cap(c, l) / 2, e);
            if l == 0 then !Ordered(t') else !OrderedUp(t', l)
  {
    hide Blocks, BlocksOk, Shape, OrderedAt, LevelOk, Flat;
    var numLeft := Cap(c, l) / 2;
    if idx <= numLeft {
      PlaceKeepsAbove(c, t2, l, p, idx, e);
    } else {
      PlaceKeepsAbove(c, t2, l, p + 1, idx - numLeft, e);
    }
  }

  /** At the end of a left half, a key that is not the middle key breaks the bond with the separator. */
  lemma TooHigh(c: Caps, t: Tree, l: nat, p: nat, t2: Tree, sib: Address, idx: nat, e: Entry)
    requires CapsOk(c) && I.Split(OK, c, t, t2, l, p, sib) && Parted(t, t2, l, p, sib)
    requires |Node(t, l, p).entries| == Cap(c, l) && idx == Cap(c, l) / 2 && e.key != MidKey(t, l, p)
    requires l == 0 ==> LeafFits(t, p, idx, e.key)
    ensures var t' := I.Placing(t2, l, p, idx, e);
            if l == 0 then !LeafOk(t', p) else !OrderedAt(t', l)
  {
    hide Blocks, BlocksOk, Shape;
    PartedSeps(t, t2, l, p, sib);
    PlaceFrame(c, t2, l, p, idx, e);
    PlaceKeepsAbove(c, t2, l, p, idx, e);
    var es := Ents(I.Placing(t2, l, p, idx, e).disk, t2.levels[l][p]);
    assert es[idx] == e && |es| == idx + 1;
    if l > 0 {
      assert !EndsAtSep(I.Placing(t2, l, p, idx, e), l, p);
    }
  }

  lemma SplitAbove(c: Caps, t: Tree, v: View, l: nat, p: nat, t2: Tree, sib: Address)
    requires Ready(c, t, l) && ViewAt(t.disk, t.levels, v, l, p)
    requires I.Split(OK, c, t, t2, l, p, sib) && HalvedKept(OK, c, t, v, l, p, t2, sib)
    requires |Node(t, l, p).entries| == Cap(c, l)
    requires if l == 0 then Ordered(t) else OrderedUp(t, l)
    ensures OrderedUp(t2, l + 1) <==> !MisfilesAbove(c, t.disk, v, l)
    ensures LeansUp(t2, l + 1) && (MisfilesAbove(c, t.disk, v, l) ==> MisfiledFrom(t2, l + 1))
  {
    hide Blocks, BlocksOk, Shape, MisfilesAbove, Fits, LeansUp, MisfiledFrom;
    if l + 1 < |t.levels| {
      MidKeyFits(c, t, l, p);
    }
  }

  lemma SplitKeepsLeaves(c: Caps, t: Tree, v: View, p: nat, t2: Tree, sib: Address, idx: nat, e: Entry)
    requires Ready(c, t, 0) && ViewAt(t.disk, t.levels, v, 0, p)
    requires I.Split(OK, c, t, t2, 0, p, sib) && HalvedKept(OK, c, t, v, 0, p, t2, sib)
    requires idx <= |Node(t, 0, p).entries| == Cap(c, 0) && !Misfiles(c, t.disk, v, 0, idx, e.key)
    requires Ordered(t) && LeafFits(t, p, idx, e.key)
    ensures Ordered(I.PlacingPending(t2, 0, p, idx, Cap(c, 0) / 2, e))
  {
    hide Blocks, BlocksOk, Shape, LeafFits, OrderedAt;
    if 1 < |t.levels| {
      MidKeyFits(c, t, 0, p);
    }
    LeafHalves(c, t, t2, p, sib);
    assert Ordered(t2);
    assert LeafOk(t, p);
    PendingFits(c, t, t2, p, sib, idx, e.key);
    var numLeft := Cap(c, 0) / 2;
    if idx <= numLeft {
      PlaceKeepsLeaves(c, t2, p, idx, e);
    } else {
      PlaceKeepsLeaves(c, t2, p + 1, idx - numLeft, e);
    }
  }

  lemma SplitKeepsOrder(c: Caps, t: Tree, v: View, l: nat, p: nat, t2: Tree, sib: Address, idx: nat, e: Entry)
    requires Ready(c, t, l) && ViewAt(t.disk, t.levels, v, l, p) && 0 < l
    requires I.Split(OK, c, t, t2, l, p, sib) && HalvedKept(OK, c, t, v, l, p, t2, sib)
    requires idx < |Node(t, l, p).entries| == Cap(c, l) && !Misfiles(c, t.disk, v, l, idx, e.key)
    requires OrderedUp(t, l) && Fits(Row(t, l), Before(t, l, p) + idx, e.key)
    ensures var t' := I.PlacingPending(t2, l, p, idx, Cap(c, l) / 2, e); OrderedUp(t', l) && LeansUp(t', l)
  {
    hide Blocks, BlocksOk, Shape, Fits, OrderedUp, LeansUp, HalvedKept, Misfiles, LevelOk, Flat, InsertAt;
    MiddleKey(c, t.disk, v, l, idx, e.key);
    SplitOrderedUp(c, t, v, l, p, t2, sib, idx, e.key);
    EntryInRow(t2, l, p);
    var numLeft := Cap(c, l) / 2;
    if idx <= numLeft {
      PlaceKeepsOrder(c, t2, l, p, idx, e);
    } else {
      PlaceKeepsOrder(c, t2, l, p + 1, idx - numLeft, e);
    }
    OrderedLeans(I.PlacingPending(t2, l, p, idx, numLeft, e), l);
  }

  lemma MiddleKey(c: Caps, d: Disk, v: View, l: nat, idx: nat, key: int)
    requires !Misfiles(c, d, v, l, idx, key) && |Ents(d, v.addr)| == Cap(c, l)
    ensures idx == Cap(c, l) / 2 ==> key == HalfKey(c, l, Ents(d, v.addr))
  {}

  lemma SplitOrderedUp(c: Caps, t: Tree, v: View, l: nat, p: nat, t2: Tree, sib: Address, idx: nat, key: int)
    requires Ready(c, t, l) && ViewAt(t.disk, t.levels, v, l, p) && 0 < l
    requires I.Split(OK, c, t, t2, l, p, sib) && HalvedKept(OK, c, t, v, l, p, t2, sib)
    requires |Node(t, l, p).entries| == Cap(c, l) && !Misfiles(c, t.disk, v, l, idx, key) && OrderedUp(t, l)
    ensures OrderedUp(t2, l)
  {
    hide Blocks, BlocksOk, Shape, Fits, OrderedAt;
    assert OrderedAt(t, l);
    if l + 1 < |t.levels| {
      MidKeyFits(c, t, l, p);
    }
    InnerHalves(c, t, t2, l, p, sib);
  }

  lemma NothingKept(st: Status, c: Caps, t: Tree, v: View, l: nat, p: nat, idx: nat, key: int)
    requires st != OK
    ensures forall t' :: Kept(st, c, t, v, l, p, idx, t', key)
    ensures forall t', sib :: HalvedKept(st, c, t, v, l, p, t', sib)
  {}

  // ---- The way down ----

  /** The search for `key` may pass through node `p` of level `l`. */
  ghost predicate Routed(t: Tree, l: nat, p: nat, key: int)
    requires l < |t.levels|
  {
    && (p > 0 ==> Sep(t, l, p - 1) <= key)
    && (p < |t.levels[l]| - 1 ==> key < Sep(t, l, p))
  }

  lemma SepBelow(t: Tree, l: nat, q: nat)
    requires 0 < l < |t.levels| && q < |Row(t, l)|
    ensures Sep(t, l - 1, q) == Row(t, l)[q].key
  {}

  lemma RouteStep(c: Caps, t: Tree, l: nat, p: nat, key: int)
    requires Ready(c, t, 0) && 0 < l < |t.levels| && p < |t.levels[l]| && OrderedAt(t, l) && Routed(t, l, p, key)
    ensures IsNode(t, l, p) && Node(t, l, p).entries != []
    ensures Routed(t, l - 1, Before(t, l, p) + RouteFrom(Node(t, l, p).entries, key, 0), key)
  {
    hide Blocks, BlocksOk, Shape, LevelOk, Flat, OrderedAt, RouteFrom;
    UpperReady(c, t, l);
    NodeFacts(c, t, l, p);
    var es := Node(t, l, p).entries;
    var idx := RouteFrom(es, key, 0);
    var q := Before(t, l, p) + idx;
    RowLength(c, t, l);
    EntryInRow(t, l, p);
    SepBelow(t, l, q);
    if q > 0 {
      RouteAbove(c, t, l, p, key);
      SepBelow(t, l, q - 1);
    }
    if idx == |es| - 1 && p < |t.levels[l]| - 1 {
      EndOfNode(t, l, p);
    }
  }

  lemma EndOfNode(t: Tree, l: nat, p: nat)
    requires l < |t.levels| && p < |t.levels[l]| - 1 && OrderedAt(t, l)
    ensures LastKey(Ents(t.disk, t.levels[l][p])) == Sep(t, l, p)
  {
    assert EndsAtSep(t, l, p);
  }

  lemma RowLength(c: Caps, t: Tree, l: nat)
    requires Ready(c, t, 0) && 0 < l < |t.levels|
    ensures |Row(t, l)| == |t.levels[l - 1]|
  {
    assert LevelOk(c, t.disk, t.levels, l - 1);
    assert |Recs(Row(t, l))| == |t.levels[l - 1]|;
  }

  lemma RouteAbove(c: Caps, t: Tree, l: nat, p: nat, key: int)
    requires Ready(c, t, l) && 0 < l && IsNode(t, l, p) && Node(t, l, p).entries != []
    requires OrderedAt(t, l) && Routed(t, l, p, key)
    ensures var q := Before(t, l, p) + RouteFrom(Node(t, l, p).entries, key, 0);
            q <= |Row(t, l)| && (q > 0 ==> Row(t, l)[q - 1].key <= key)
  {
    hide Blocks, BlocksOk, Shape, LevelOk, Flat, OrderedAt, EndsAtSep, RouteFrom;
    var es := Node(t, l, p).entries;
    var idx := RouteFrom(es, key, 0);
    EntryInRow(t, l, p);
    if idx > 0 {
      assert Row(t, l)[Before(t, l, p) + (idx - 1)] == es[idx - 1];
    } else if p > 0 {
      LastBefore(c, t, l, p);
    } else {
      FlatNone(t.disk);
      assert t.levels[l][..0] == [];
    }
  }

  /** What stands before an inner node in its row is the separator to its left. */
  lemma LastBefore(c: Caps, t: Tree, l: nat, p: nat)
    requires Ready(c, t, l) && 0 < p && IsNode(t, l, p) && OrderedAt(t, l)
    ensures 0 < Before(t, l, p) <= |Row(t, l)| && Row(t, l)[Before(t, l, p) - 1].key == Sep(t, l, p - 1)
  {
    hide Blocks, BlocksOk, Shape, LevelOk, Flat, OrderedAt;
    NodeFacts(c, t, l, p - 1);
    EntryInRow(t, l, p - 1);
    EndOfNode(t, l, p - 1);
    var prev := Ents(t.disk, t.levels[l][p - 1]);
    assert Row(t, l)[Before(t, l, p - 1) + (|prev| - 1)] == prev[|prev| - 1];
  }

  /** Where the search in a leaf stops is where the key fits. */
  lemma RoutedFits(t: Tree, p: nat, key: int)
    requires t.levels != [] && p < |t.levels[0]| && LeafOk(t, p) && Routed(t, 0, p, key)
    ensures LeafFits(t, p, LeafIndex(Ents(t.disk, t.levels[0][p]), key), key)
  {
    LeafIndexSorted(Ents(t.disk, t.levels[0][p]), key);
  }

  lemma LeafIndexSorted(es: seq<Entry>, key: int)
    requires Sorted(es)
    ensures forall i :: 0 <= i < LeafIndex(es, key) ==> es[i].key <= key
  {
    var i := CeilFrom(es, key, 0);
    var r := LastEqual(es, key, i);
    if i < |es| && r > i {
      assert es[i].key <= es[r].key == key;
    }
  }

  /** The view of the leaf that the search for `key` reaches. */
  ghost function LeafView(d: Disk, v: View, l: nat, key: int): View
    decreases l
  {
    var es := Ents(d, v.addr);
    if l == 0 || es == [] then v
    else var i := RouteFrom(es, key, 0); LeafView(d, Child(es[i].rec, v, i), l - 1, key)
  }

  /** Inserting `key` below the viewed node will misfile a child. */
  ghost predicate MisfilesBelow(c: Caps, d: Disk, v: View, l: nat, key: int) {
    var leaf := LeafView(d, v, l, key);
    Misfiles(c, d, leaf, 0, LeafIndex(Ents(d, leaf.addr), key), key)
  }

  ghost predicate Misplaces(c: Caps, t: Tree, key: int) {
    t.levels != [] && MisfilesBelow(c, t.disk, Top(t.root), |t.levels| - 1, key)
  }

  /** Inserting `key` splits its leaf, and misfiles something in a level above. */
  ghost predicate MisplacesAbove(c: Caps, t: Tree, key: int) {
    t.levels != [] && SplitsBadly(c, t.disk, LeafView(t.disk, Top(t.root), |t.levels| - 1, key), 0)
  }

  /** What an insertion below the viewed node does to the order. */
  ghost predicate KeptBelow(st: Status, c: Caps, t: Tree, v: View, l: nat, p: nat, key: int, t': Tree) {
    st == OK && l < |t.levels| && Ordered(t) && Routed(t, l, p, key) ==>
      && (Ordered(t') <==> !MisfilesBelow(c, t.disk, v, l, key))
      && Leaning(t') && (SplitsBadly(c, t.disk, LeafView(t.disk, v, l, key), 0) ==> MisfiledFrom(t', 1))
  }

  lemma KeptAtLeaf(st: Status, c: Caps, t: Tree, v: View, p: nat, key: int, t': Tree)
    requires Ready(c, t, 0) && ViewAt(t.disk, t.levels, v, 0, p)
    requires Kept(st, c, t, v, 0, p, LeafIndex(Ents(t.disk, v.addr), key), t', key)
    ensures KeptBelow(st, c, t, v, 0, p, key, t')
  {
    if st == OK && Ordered(t) && Routed(t, 0, p, key) {
      assert LeafOk(t, p);
      RoutedFits(t, p, key);
    }
  }

  lemma KeptThroughChild(st: Status, c: Caps, t: Tree, v: View, l: nat, p: nat, key: int, t': Tree)
    requires Ready(c, t, 0) && 0 < l && ViewAt(t.disk, t.levels, v, l, p) && Ents(t.disk, v.addr) != []
    requires var i := RouteFrom(Ents(t.disk, v.addr), key, 0);
             KeptBelow(st, c, t, Child(Ents(t.disk, v.addr)[i].rec, v, i), l - 1, Before(t, l, p) + i, key, t')
    ensures KeptBelow(st, c, t, v, l, p, key, t')
  {
    hide LevelOk, Flat, Blocks, BlocksOk, Leaning, MisfiledFrom;
    if st == OK && Ordered(t) && Routed(t, l, p, key) {
      assert OrderedAt(t, l);
      RouteStep(c, t, l, p, key);
    }
  }

  /** The first entry of an empty tree. */
  lemma KeptFirst(c: Caps, t: Tree, v: View, p: nat, e: Entry)
    requires Ready(c, t, 0) && ViewAt(t.disk, t.levels, v, 0, p) && IsNode(t, 0, p) && Node(t, 0, p).entries == []
    ensures KeptBelow(OK, c, t, v, 0, p, e.key, I.Placing(t, 0, p, 0, e))
  {
    PlacedKept(c, t, v, 0, p, 0, e);
    KeptAtLeaf(OK, c, t, v, p, e.key, I.Placing(t, 0, p, 0, e));
  }
}
