/** The leaves that insertions and removals leave behind, one by one. */
module BmTreeLeaves {
  import opened BmTreeModel
  import opened BmTreeLocate
  import opened BmTreeOrder
  import I = BmTreeInsertLemmas
  import R = BmTreeRemoveLemmas
  import D = BmTreeOrderRemove

  /** What the left half of a split leaf holds once the entry for index `idx` has been placed. */
  function LeftPart(es: seq<Entry>, n: nat, idx: nat, e: Entry): seq<Entry>
    requires n <= |es|
  {
    if idx <= n then InsertAt(es[..n], idx, e) else es[..n]
  }

  function RightPart(es: seq<Entry>, n: nat, idx: nat, e: Entry): seq<Entry>
    requires n <= |es| && idx <= |es|
  {
    if idx <= n then es[n..] else InsertAt(es[n..], idx - n, e)
  }

  /** Leaf `p` took in `e` at index `idx`, or it was full and has become two; all other leaves are the same. */
  ghost predicate LeafPlaced(c: Caps, t: Tree, t': Tree, p: nat, idx: nat, e: Entry) {
    && t.levels != [] && t'.levels != [] && p < |t.levels[0]|
    && var es, n := LeafEnts(t, p), Cap(c, 0) / 2;
    && idx <= |es|
    && (forall x :: 0 <= x < p ==> LeafEnts(t', x) == LeafEnts(t, x))
    && if |es| < Cap(c, 0) then
         && t'.levels == t.levels && LeafEnts(t', p) == InsertAt(es, idx, e)
         && (forall x :: p < x < |t.levels[0]| ==> LeafEnts(t', x) == LeafEnts(t, x))
         && (forall q :: Sep(t', 0, q) == Sep(t, 0, q))
       else
         && 0 < n < |es| && |t'.levels[0]| == |t.levels[0]| + 1
         && LeafEnts(t', p) == LeftPart(es, n, idx, e) && LeafEnts(t', p + 1) == RightPart(es, n, idx, e)
         && Sep(t', 0, p) == es[n - 1].key
         && (forall x :: p < x < |t.levels[0]| ==> LeafEnts(t', x + 1) == LeafEnts(t, x))
  }

  lemma PlacedInLeaf(c: Caps, t: Tree, p: nat, idx: nat, e: Entry)
    requires Ready(c, t, 0) && IsNode(t, 0, p) && idx <= |Node(t, 0, p).entries| < Cap(c, 0)
    ensures LeafPlaced(c, t, I.Placing(t, 0, p, idx, e), p, idx, e)
  {
    hide Blocks, BlocksOk, Shape, Flat;
    PlaceFrame(c, t, 0, p, idx, e);
    PlaceKeepsAbove(c, t, 0, p, idx, e);
  }

  lemma SplitInLeaf(c: Caps, t: Tree, v: View, p: nat, t2: Tree, sib: Address, idx: nat, e: Entry)
    requires CapsOk(c) && I.Split(OK, c, t, t2, 0, p, sib) && HalvedKept(OK, c, t, v, 0, p, t2, sib)
    requires idx <= |Node(t, 0, p).entries| == Cap(c, 0)
    ensures LeafPlaced(c, t, I.PlacingPending(t2, 0, p, idx, Cap(c, 0) / 2, e), p, idx, e)
  {
    hide Ready, Flat, OrderedUp, LeansUp, MisfiledFrom, Fits, MisfilesAbove, InsertAt, Sep;
    var n := Cap(c, 0) / 2;
    PartedSeps(t, t2, 0, p, sib);
    HalvesInRow(t, t2, p, sib);
    if idx <= n {
      PlaceFrame(c, t2, 0, p, idx, e);
      PlaceKeepsAbove(c, t2, 0, p, idx, e);
      OthersSame(t, t2, I.Placing(t2, 0, p, idx, e), p, sib, p);
    } else {
      PlaceFrame(c, t2, 0, p + 1, idx - n, e);
      PlaceKeepsAbove(c, t2, 0, p + 1, idx - n, e);
      OthersSame(t, t2, I.Placing(t2, 0, p + 1, idx - n, e), p, sib, p + 1);
    }
  }

  lemma HalvesInRow(t: Tree, t2: Tree, p: nat, sib: Address)
    requires Parted(t, t2, 0, p, sib)
    ensures |t2.levels[0]| == |t.levels[0]| + 1
  {}

  /** The leaves next to the two halves. */
  lemma OthersSame(t: Tree, t2: Tree, t': Tree, p: nat, sib: Address, x: nat)
    requires Parted(t, t2, 0, p, sib) && (x == p || x == p + 1) && t'.levels == t2.levels
    requires forall y :: 0 <= y < |t2.levels[0]| && y != x ==>
               Ents(t'.disk, t2.levels[0][y]) == Ents(t2.disk, t2.levels[0][y])
    ensures forall y :: 0 <= y < p ==> LeafEnts(t', y) == LeafEnts(t, y)
    ensures forall y :: p < y < |t.levels[0]| ==> LeafEnts(t', y + 1) == LeafEnts(t, y)
  {
    hide Sep, Flat;
    forall y: nat | y < |t.levels[0]| && y != p
      ensures LeafEnts(t', if y < p then y else y + 1) == LeafEnts(t, y) {
      PartedNodes(t, t2, 0, p, sib, y);
    }
  }

  // ---- Removals that need no sibling ----

  /** Leaf `p` can lose an entry without turning to a sibling. */
  ghost predicate Spare(c: Caps, t: Tree, p: nat)
    requires t.levels != []
  {
    |LeafEnts(t, p)| > Cap(c, 0) / 2 || |t.levels| == 1
  }

  /** Leaf `p` lost its entry `idx` and nothing else changed. */
  ghost predicate LeafTaken(t: Tree, t': Tree, p: nat, idx: nat) {
    && t.levels != [] && p < |t.levels[0]| && idx < |LeafEnts(t, p)|
    && t'.levels == t.levels && LeafEnts(t', p) == RemoveAt(LeafEnts(t, p), idx)
    && (forall x :: 0 <= x < |t.levels[0]| && x != p ==> LeafEnts(t', x) == LeafEnts(t, x))
    && (forall q :: Sep(t', 0, q) == Sep(t, 0, q))
    && SameAbove(t, t')
  }

  lemma DroppedInLeaf(c: Caps, t: Tree, p: nat, idx: nat)
    requires Ready(c, t, 0) && IsNode(t, 0, p) && idx < |Node(t, 0, p).entries|
    ensures LeafTaken(t, R.Dropping(t, 0, p, idx), p, idx)
  {
    hide Blocks, BlocksOk, Shape, Flat;
    D.DropFrame(c, t, 0, p, idx);
  }
}
