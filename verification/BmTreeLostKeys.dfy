/**
 What an insertion that misplaces its key does to later searches: when all keys were distinct, it makes one of them
 unreachable, in a tree of any height.
 */
module BmTreeLostKeys {
  import opened BmTreeModel
  import opened BmTreeShape
  import opened BmTreeBlocks
  import opened BmTreeLocate
  import opened BmTreeOrder
  import opened BmTreeLeaves
  import opened BmTreeSearch
  import opened BmTreeAscending
  import opened BmTreeRuns
  import opened BmTreeDescent
  import opened BmTreeContainer

  /** A strict search finds every key that is stored. */
  ghost predicate AllFound(t: Tree)
    requires t.levels != []
  {
    forall e :: e in Row(t, 0) ==> Reachable(t, e.key)
  }

  ghost predicate Reachable(t: Tree, key: int)
    requires t.levels != []
  {
    Target(t, key) < |t.levels[0]| && FoundFrom(t, Target(t, key), key, 1, true).1 != []
  }

  lemma OrderedFinds(c: Caps, t: Tree)
    requires Ready(c, t, 0) && Ordered(t)
    ensures AllFound(t)
  {
    hide Ordered, Blocks, BlocksOk, LevelOk, Flat, Matching, Target, FoundFrom;
    forall e | e in Row(t, 0) ensures Reachable(t, e.key) {
      StrictSearchExact(c, t, e.key, 1);
      MatchingAll(Row(t, 0), e.key);
      assert e in Matching(Row(t, 0), e.key);
    }
  }

  // ---- Spots: a leaf and an index in it ----

  ghost predicate Spot(t: Tree, x: nat, i: nat)
    requires t.levels != []
  {
    x < |t.levels[0]| && i < |LeafEnts(t, x)|
  }

  /** No leaf ends with `key`. */
  ghost predicate NowhereLast(t: Tree, key: int)
    requires t.levels != []
  {
    forall x :: 0 <= x < |t.levels[0]| && LeafEnts(t, x) != [] ==> LastKey(LeafEnts(t, x)) != key
  }

  ghost predicate Earlier(x: nat, i: nat, y: nat, j: nat) {
    x < y || (x == y && i < j)
  }

  /** Spots follow each other as the entries of the row do. */
  lemma SpotsInRow(t: Tree, x: nat, i: nat, y: nat, j: nat)
    requires t.levels != [] && Spot(t, x, i) && Spot(t, y, j) && Earlier(x, i, y, j)
    ensures Before(t, 0, x) + i < Before(t, 0, y) + j < |Row(t, 0)|
    ensures Row(t, 0)[Before(t, 0, x) + i] == LeafEnts(t, x)[i] && Row(t, 0)[Before(t, 0, y) + j] == LeafEnts(t, y)[j]
  {
    hide Flat;
    EntryInRow(t, 0, x);
    EntryInRow(t, 0, y);
    if x < y {
      BeforeGrows(t, x + 1, y);
    }
  }

  lemma BeforeGrows(t: Tree, x: nat, y: nat)
    requires t.levels != [] && x <= y <= |t.levels[0]|
    ensures Before(t, 0, x) <= Before(t, 0, y)
  {
    assert t.levels[0][..y] == t.levels[0][..x] + t.levels[0][x..y];
    FlatConcat(t.disk, t.levels[0][..x], t.levels[0][x..y]);
  }

  lemma SpotsSorted(t: Tree, x: nat, i: nat, y: nat, j: nat)
    requires t.levels != [] && Sorted(Row(t, 0)) && Spot(t, x, i) && Spot(t, y, j) && Earlier(x, i, y, j)
    ensures LeafEnts(t, x)[i].key <= LeafEnts(t, y)[j].key
  {
    SpotsInRow(t, x, i, y, j);
  }

  lemma SpotsAscend(t: Tree, x: nat, i: nat, y: nat, j: nat)
    requires t.levels != [] && Ascending(Row(t, 0)) && Spot(t, x, i) && Spot(t, y, j) && Earlier(x, i, y, j)
    ensures LeafEnts(t, x)[i].key < LeafEnts(t, y)[j].key
  {
    SpotsInRow(t, x, i, y, j);
  }

  lemma SpotStored(t: Tree, x: nat, i: nat)
    requires t.levels != [] && Spot(t, x, i)
    ensures LeafEnts(t, x)[i] in Row(t, 0)
  {
    EntryInRow(t, 0, x);
    assert Row(t, 0)[Before(t, 0, x) + i] == LeafEnts(t, x)[i];
  }

  // ---- A key behind its leaf ----

  /** The walk back looks at the last entry of every leaf before the first one, and at none other without a match. */
  lemma {:induction false} WalkFindsNothing(c: Caps, t: Tree, p: nat, key: int)
    requires Ready(c, t, 0) && p < |t.levels[0]| && NowhereLast(t, key)
    ensures FoundBack(t.disk, t.levels[0], p, |LeafEnts(t, p)|, key, 1, true) == []
    decreases p
  {
    hide Blocks, BlocksOk, LevelOk, Flat;
    var es := LeafEnts(t, p);
    assert es != [] ==> LastKey(es) != key;
    assert Copied(es, key, |es|, 1, true, p == 0) == [];
    if p > 0 {
      WalkFindsNothing(c, t, p - 1, key);
    }
  }

  /** A key that ends no leaf cannot be found when the search for it goes to a leaf behind it. */
  lemma BehindIsLost(c: Caps, t: Tree, y: nat, i: nat)
    requires Ready(c, t, 0) && Sorted(Row(t, 0)) && Spot(t, y, i) && NowhereLast(t, LeafEnts(t, y)[i].key)
    requires y < Target(t, LeafEnts(t, y)[i].key) < |t.levels[0]|
    ensures !AllFound(t)
  {
    hide Blocks, BlocksOk, LevelOk, Flat, Target, NowhereLast, FoundBack, LeafIndex, Sorted;
    var key := LeafEnts(t, y)[i].key;
    var x := Target(t, key);
    AllAbove(c, t, y, i, x);
    var es := LeafEnts(t, x);
    StartOfAll(es, key);
    FirstDiffers(t, x, key);
    WalkFindsNothing(c, t, x - 1, key);
    SpotStored(t, y, i);
    assert !Reachable(t, key);
  }

  lemma FirstDiffers(t: Tree, x: nat, key: int)
    requires t.levels != [] && 0 < x < |t.levels[0]| && LeafEnts(t, x) != [] && LeafEnts(t, x)[0].key != key
    ensures FoundBack(t.disk, t.levels[0], x, 1, key, 1, true)
         == FoundBack(t.disk, t.levels[0], x - 1, |LeafEnts(t, x - 1)|, key, 1, true)
  {
    assert Copied(LeafEnts(t, x), key, 1, 1, true, false) == [];
  }

  lemma AllAbove(c: Caps, t: Tree, y: nat, i: nat, x: nat)
    requires Ready(c, t, 0) && Sorted(Row(t, 0)) && Spot(t, y, i) && NowhereLast(t, LeafEnts(t, y)[i].key)
    requires y < x < |t.levels[0]|
    ensures |LeafEnts(t, x)| >= 2
    ensures forall j :: 0 <= j < |LeafEnts(t, x)| ==> LeafEnts(t, y)[i].key < LeafEnts(t, x)[j].key
  {
    hide Blocks, BlocksOk, LevelOk, Flat, Sorted;
    LeafFilled(c, t, x);
    var n := |LeafEnts(t, y)| - 1;
    assert LastKey(LeafEnts(t, y)) == LeafEnts(t, y)[n].key;
    if i < n {
      SpotsSorted(t, y, i, y, n);
    }
    forall j | 0 <= j < |LeafEnts(t, x)| ensures LeafEnts(t, y)[i].key < LeafEnts(t, x)[j].key {
      SpotsSorted(t, y, n, x, j);
    }
  }

  /** With two leaves or more, each has two entries or more. */
  lemma LeafFilled(c: Caps, t: Tree, x: nat)
    requires Ready(c, t, 0) && x < |t.levels[0]| && |t.levels[0]| > 1
    ensures |LeafEnts(t, x)| >= 2
  {
    NodeFacts(c, t, 0, x);
    TopView(c, t);
  }

  lemma StartOfAll(es: seq<Entry>, key: int)
    requires |es| >= 2 && forall i :: 0 <= i < |es| ==> es[i].key > key
    ensures LeafIndex(es, key) == 0
  {
    assert CeilFrom(es, key, 0) == 0;
  }

  // ---- Where the entries of a split leaf come from ----

  /** The spot of the new entry in a full leaf `p` that has become two. */
  ghost predicate IsNew(c: Caps, p: nat, idx: nat, x: nat, i: nat) {
    if idx <= Cap(c, 0) / 2 then x == p && i == idx else x == p + 1 && i == idx - Cap(c, 0) / 2
  }

  /** Where the entry of another spot was before. */
  ghost function Origin(c: Caps, p: nat, idx: nat, x: nat, i: nat): (nat, nat) {
    var n := Cap(c, 0) / 2;
    if x < p then (x, i)
    else if x == p then (p, if idx <= n && i > idx then i - 1 else i)
    else if x == p + 1 then (p, if idx > n && i + n > idx then n + i - 1 else n + i)
    else (x - 1, i)
  }

  ghost predicate SplitLeaf(c: Caps, t: Tree, t': Tree, p: nat, idx: nat, e: Entry) {
    && t.levels != [] && t'.levels != []
    && LeafPlaced(c, t, t', p, idx, e) && |LeafEnts(t, p)| >= Cap(c, 0)
  }

  lemma OldSpot(c: Caps, t: Tree, t': Tree, p: nat, idx: nat, e: Entry, x: nat, i: nat)
    requires SplitLeaf(c, t, t', p, idx, e) && Spot(t', x, i)
    ensures IsNew(c, p, idx, x, i) ==> LeafEnts(t', x)[i] == e
    ensures !IsNew(c, p, idx, x, i) ==>
              var o := Origin(c, p, idx, x, i); Spot(t, o.0, o.1) && LeafEnts(t', x)[i] == LeafEnts(t, o.0)[o.1]
  {
    hide LeafEnts;
    var es, n := LeafEnts(t, p), Cap(c, 0) / 2;
    if x > p + 1 {
      assert LeafEnts(t', (x - 1) + 1) == LeafEnts(t, x - 1);
    } else if x == p {
      LeftSpot(es, n, idx, e, i);
    } else if x == p + 1 {
      RightSpot(es, n, idx, e, i);
    }
  }

  lemma LeftSpot(es: seq<Entry>, n: nat, idx: nat, e: Entry, i: nat)
    requires n <= |es| && i < |LeftPart(es, n, idx, e)|
    ensures var r := LeftPart(es, n, idx, e)[i];
            if idx <= n && i == idx then r == e
            else var o := if idx <= n && i > idx then i - 1 else i; o < |es| && r == es[o]
  {}

  lemma RightSpot(es: seq<Entry>, n: nat, idx: nat, e: Entry, i: nat)
    requires n <= |es| && idx <= |es| && i < |RightPart(es, n, idx, e)|
    ensures var r := RightPart(es, n, idx, e)[i];
            if idx > n && i == idx - n then r == e
            else var o := if idx > n && i + n > idx then n + i - 1 else n + i; o < |es| && r == es[o]
  {}

  /** Among the entries that are not new no two have the same key. */
  lemma OldKeysDiffer(c: Caps, t: Tree, t': Tree, p: nat, idx: nat, e: Entry, x: nat, i: nat, y: nat, j: nat)
    requires SplitLeaf(c, t, t', p, idx, e) && Ascending(Row(t, 0)) && Spot(t', x, i) && Spot(t', y, j)
    requires (x, i) != (y, j) && !IsNew(c, p, idx, x, i) && !IsNew(c, p, idx, y, j)
    ensures LeafEnts(t', x)[i].key != LeafEnts(t', y)[j].key
  {
    hide LeafPlaced, Flat, Ascending;
    OldSpot(c, t, t', p, idx, e, x, i);
    OldSpot(c, t, t', p, idx, e, y, j);
    OriginsDiffer(c, t, t', p, idx, e, x, i, y, j);
    var a, b := Origin(c, p, idx, x, i), Origin(c, p, idx, y, j);
    if Earlier(a.0, a.1, b.0, b.1) {
      SpotsAscend(t, a.0, a.1, b.0, b.1);
    } else {
      SpotsAscend(t, b.0, b.1, a.0, a.1);
    }
  }

  lemma OriginsDiffer(c: Caps, t: Tree, t': Tree, p: nat, idx: nat, e: Entry, x: nat, i: nat, y: nat, j: nat)
    requires SplitLeaf(c, t, t', p, idx, e) && Spot(t', x, i) && Spot(t', y, j)
    requires (x, i) != (y, j) && !IsNew(c, p, idx, x, i) && !IsNew(c, p, idx, y, j)
    ensures Origin(c, p, idx, x, i) != Origin(c, p, idx, y, j)
  {}

  /** At most one of the entries with the new key is another one. */
  lemma AtMostTwo(c: Caps, t: Tree, t': Tree, p: nat, idx: nat, e: Entry,
                  x: nat, i: nat, y: nat, j: nat, z: nat, k: nat)
    requires SplitLeaf(c, t, t', p, idx, e) && Ascending(Row(t, 0)) && Spot(t', x, i) && Spot(t', y, j)
    requires Spot(t', z, k)
    requires (x, i) != (y, j) && (x, i) != (z, k) && (y, j) != (z, k)
    ensures !(LeafEnts(t', x)[i].key == LeafEnts(t', y)[j].key == LeafEnts(t', z)[k].key)
  {
    hide LeafPlaced, Flat, Ascending;
    if IsNew(c, p, idx, x, i) {
      OldKeysDiffer(c, t, t', p, idx, e, y, j, z, k);
    } else if IsNew(c, p, idx, y, j) {
      OldKeysDiffer(c, t, t', p, idx, e, x, i, z, k);
    } else {
      OldKeysDiffer(c, t, t', p, idx, e, x, i, y, j);
    }
  }

  /** A key other than the new one that does not end its leaf ends none. */
  lemma OldKeyInside(c: Caps, t: Tree, t': Tree, p: nat, idx: nat, e: Entry, y: nat, i: nat)
    requires SplitLeaf(c, t, t', p, idx, e) && Ascending(Row(t, 0)) && Spot(t', y, i) && i + 1 < |LeafEnts(t', y)|
    requires LeafEnts(t', y)[i].key != e.key
    ensures NowhereLast(t', LeafEnts(t', y)[i].key)
  {
    hide LeafPlaced, Flat, Ascending;
    forall x | 0 <= x < |t'.levels[0]| && LeafEnts(t', x) != []
      ensures LastKey(LeafEnts(t', x)) != LeafEnts(t', y)[i].key {
      var n := |LeafEnts(t', x)| - 1;
      OldSpot(c, t, t', p, idx, e, x, n);
      OldSpot(c, t, t', p, idx, e, y, i);
      if !IsNew(c, p, idx, x, n) {
        OldKeysDiffer(c, t, t', p, idx, e, x, n, y, i);
      }
    }
  }

  // ---- The new key itself ----

  /** The insertion went to where the search for the key ends, and left the row sorted. */
  ghost predicate Went(c: Caps, t: Tree, t': Tree, p: nat, idx: nat, e: Entry) {
    && Ready(c, t, 0) && Ordered(t) && Ascending(Row(t, 0)) && Ready(c, t', 0)
    && SplitLeaf(c, t, t', p, idx, e) && Routed(t, 0, p, e.key) && idx == LeafIndex(LeafEnts(t, p), e.key)
    && Sorted(Row(t', 0))
  }

  /** The leaf with the new entry has three or more. */
  lemma NewLeafSize(c: Caps, t: Tree, t': Tree, p: nat, idx: nat, e: Entry, x: nat, i: nat)
    requires Went(c, t, t', p, idx, e) && Spot(t', x, i) && IsNew(c, p, idx, x, i)
    ensures |LeafEnts(t', x)| >= 3
  {
    hide Shape, Blocks, BlocksOk, Ordered, Flat, LeafIndex;
    NodeFacts(c, t, 0, p);
  }

  /**
   Unless the new entry is misfiled in its leaf, it is not at the end of a leaf with its key at the start of the next.
   */
  lemma NewKeyNotNext(c: Caps, t: Tree, t': Tree, p: nat, idx: nat, e: Entry, x: nat)
    requires Went(c, t, t', p, idx, e) && x + 1 < |t'.levels[0]| && LeafEnts(t', x) != [] && LeafEnts(t', x + 1) != []
    requires IsNew(c, p, idx, x, |LeafEnts(t', x)| - 1)
    requires idx == Cap(c, 0) / 2 ==> e.key == LeafEnts(t, p)[Cap(c, 0) / 2 - 1].key
    ensures LeafEnts(t', x + 1)[0].key != e.key
  {
    hide Shape, Blocks, BlocksOk, Ordered, Flat, LeafIndex, Ascending, Sorted;
    NodeFacts(c, t, 0, p);
    var es, n := LeafEnts(t, p), Cap(c, 0) / 2;
    if idx <= n {
      NextInLeaf(t, p, n);
    } else {
      NextLeafAbove(c, t, t', p, idx, e);
    }
  }

  lemma NextInLeaf(t: Tree, p: nat, n: nat)
    requires t.levels != [] && p < |t.levels[0]| && Ascending(Row(t, 0)) && 0 < n < |LeafEnts(t, p)|
    ensures LeafEnts(t, p)[n - 1].key < LeafEnts(t, p)[n].key
  {
    SpotsAscend(t, p, n - 1, p, n);
  }

  lemma NextLeafAbove(c: Caps, t: Tree, t': Tree, p: nat, idx: nat, e: Entry)
    requires Went(c, t, t', p, idx, e) && p + 2 < |t'.levels[0]| && LeafEnts(t', p + 2) != []
    ensures e.key < LeafEnts(t', p + 2)[0].key
  {
    hide Shape, Blocks, BlocksOk, Flat, LeafIndex, Ascending, Sorted, OrderedUp;
    assert LeafEnts(t', (p + 1) + 1) == LeafEnts(t, p + 1);
    assert LeafOk(t, p + 1);
  }

  /** A leaf that starts with the new key, has that key wherever it does not end, and is not the whole story. */
  lemma NewKeyInside(c: Caps, t: Tree, t': Tree, p: nat, idx: nat, e: Entry, y: nat)
    requires Went(c, t, t', p, idx, e) && y < |t'.levels[0]| && |LeafEnts(t', y)| >= 2
    requires LeafEnts(t', y)[0].key == e.key
    requires |LeafEnts(t', y)| >= 3 ==> LeafEnts(t', y)[1].key == e.key
    requires idx == Cap(c, 0) / 2 ==> e.key == LeafEnts(t, p)[Cap(c, 0) / 2 - 1].key
    ensures NowhereLast(t', e.key)
  {
    hide Ready, Ordered, LeafPlaced, Flat, Ascending, Sorted, LeafIndex, Routed;
    forall x | 0 <= x < |t'.levels[0]| && LeafEnts(t', x) != [] ensures LastKey(LeafEnts(t', x)) != e.key {
      NoEnd(c, t, t', p, idx, e, y, x);
    }
  }

  lemma NoEnd(c: Caps, t: Tree, t': Tree, p: nat, idx: nat, e: Entry, y: nat, x: nat)
    requires Went(c, t, t', p, idx, e) && y < |t'.levels[0]| && |LeafEnts(t', y)| >= 2
    requires LeafEnts(t', y)[0].key == e.key
    requires |LeafEnts(t', y)| >= 3 ==> LeafEnts(t', y)[1].key == e.key
    requires idx == Cap(c, 0) / 2 ==> e.key == LeafEnts(t, p)[Cap(c, 0) / 2 - 1].key
    requires x < |t'.levels[0]| && LeafEnts(t', x) != []
    ensures LastKey(LeafEnts(t', x)) != e.key
  {
    hide Blocks, BlocksOk, LevelOk, Ordered, LeafPlaced, Flat, Ascending, IsNew, Sorted, LeafIndex, Routed;
    var n := |LeafEnts(t', x)| - 1;
    if LeafEnts(t', x)[n].key == e.key {
      TwoOfThem(c, t, t', p, idx, e, y, x);
      OneIsNew(c, t, t', p, idx, e, y, 0, x, n);
      if IsNew(c, p, idx, y, 0) {
        NewLeafSize(c, t, t', p, idx, e, y, 0);
      } else if x == y {
        NewLeafSize(c, t, t', p, idx, e, x, n);
      } else {
        NewKeyNotNext(c, t, t', p, idx, e, x);
      }
    }
  }

  /** With the new key at the start of leaf `y` and the end of leaf `x`, they are all, and they are neighbours. */
  lemma TwoOfThem(c: Caps, t: Tree, t': Tree, p: nat, idx: nat, e: Entry, y: nat, x: nat)
    requires Went(c, t, t', p, idx, e) && y < |t'.levels[0]| && |LeafEnts(t', y)| >= 2
    requires LeafEnts(t', y)[0].key == e.key
    requires |LeafEnts(t', y)| >= 3 ==> LeafEnts(t', y)[1].key == e.key
    requires x < |t'.levels[0]| && LeafEnts(t', x) != [] && LastKey(LeafEnts(t', x)) == e.key
    ensures |LeafEnts(t', y)| == 2 && (x == y || x + 1 == y)
  {
    hide Blocks, BlocksOk, LevelOk, Ordered, LeafPlaced, Flat, Ascending, IsNew, Sorted, LeafIndex, Routed;
    var n, m := |LeafEnts(t', x)| - 1, |LeafEnts(t', y)| - 1;
    if m >= 2 {
      AtMostTwo(c, t, t', p, idx, e, y, 0, y, 1, x, n);
    }
    if x > y {
      SpotsSorted(t', y, 0, y, m);
      SpotsSorted(t', y, m, x, n);
      AtMostTwo(c, t, t', p, idx, e, y, 0, y, m, x, n);
    } else if x + 1 < y {
      LeafFilled(c, t', x + 1);
      SpotsSorted(t', x, n, x + 1, 0);
      SpotsSorted(t', x + 1, 0, y, 0);
      AtMostTwo(c, t, t', p, idx, e, x, n, x + 1, 0, y, 0);
    }
  }

  lemma OneIsNew(c: Caps, t: Tree, t': Tree, p: nat, idx: nat, e: Entry, y: nat, j: nat, x: nat, i: nat)
    requires Went(c, t, t', p, idx, e) && Spot(t', y, j) && Spot(t', x, i) && (y, j) != (x, i)
    requires LeafEnts(t', y)[j].key == LeafEnts(t', x)[i].key
    ensures IsNew(c, p, idx, y, j) || IsNew(c, p, idx, x, i)
  {
    hide Blocks, BlocksOk, LevelOk, Ordered, LeafPlaced, Flat, Ascending, IsNew, Sorted, LeafIndex, Routed;
    if !IsNew(c, p, idx, y, j) && !IsNew(c, p, idx, x, i) {
      OldKeysDiffer(c, t, t', p, idx, e, y, j, x, i);
    }
  }

  // ---- The theorem ----

  /** Misfiled in its own leaf, the new entry hides the key before it, which is the separator. */
  lemma LostInLeaf(c: Caps, t: Tree, t': Tree, p: nat, idx: nat, e: Entry)
    requires Went(c, t, t', p, idx, e) && LeansUp(t', 1)
    requires idx == Cap(c, 0) / 2 && e.key != LeafEnts(t, p)[Cap(c, 0) / 2 - 1].key
    ensures !AllFound(t')
  {
    hide Blocks, BlocksOk, LevelOk, Ordered, Flat, Ascending, Sorted, LeafIndex, Routed, LeansUp, Target, AllFound,
         NowhereLast;
    OldKeyInside(c, t, t', p, idx, e, p, idx - 1);
    TargetBeyond(c, t', Sep(t', 0, p), 0, p);
    BehindIsLost(c, t', p, idx - 1);
  }

  /** Misfiled in a level above, an entry hides keys of the leaf to its left. */
  lemma LostBelow(c: Caps, t: Tree, t': Tree, p: nat, idx: nat, e: Entry)
    requires Went(c, t, t', p, idx, e) && Leaning(t') && MisfiledFrom(t', 1)
    requires idx == Cap(c, 0) / 2 ==> e.key == LeafEnts(t, p)[Cap(c, 0) / 2 - 1].key
    ensures !AllFound(t')
  {
    hide Blocks, BlocksOk, LevelOk, Ordered, Flat, Ascending, Sorted, LeafIndex, Routed, Leaning, Target, AllFound,
         NowhereLast, LeafPlaced;
    var k: nat, q: nat :| 1 <= k && MisfiledAt(t', k, q);
    var y := MisfiledLeaf(c, t', k, q);
    SeveralLeaves(c, t', k, q);
    LeafFilled(c, t', y);
    var es := LeafEnts(t', y);
    assert y < Target(t', LeafEnts(t', y)[0].key) < |t'.levels[0]|;
    assert y < Target(t', LeafEnts(t', y)[1].key) < |t'.levels[0]|;
    if es[0].key != e.key {
      OldKeyInside(c, t, t', p, idx, e, y, 0);
      BehindIsLost(c, t', y, 0);
    } else if |es| >= 3 && es[1].key != e.key {
      OldKeyInside(c, t, t', p, idx, e, y, 1);
      BehindIsLost(c, t', y, 1);
    } else {
      NewKeyInside(c, t, t', p, idx, e, y);
      BehindIsLost(c, t', y, 0);
    }
  }

  lemma SeveralLeaves(c: Caps, t: Tree, k: nat, q: nat)
    requires Ready(c, t, 0) && k < |t.levels| && q + 1 < |t.levels[k]|
    ensures |t.levels[0]| > 1
  {
    hide Blocks, BlocksOk, LevelOk;
    FirstOrder(c, t, k, 0, q + 1, 0);
    FirstOrder(c, t, k, q + 1, |t.levels[k]|, 0);
  }

  /** The row after an insertion where the search for the key ends. */
  lemma RowStaysSorted(c: Caps, t: Tree, e: Entry)
    requires Ready(c, t, 0) && Ordered(t)
    ensures var p := Target(t, e.key);
            && p < |t.levels[0]| && Routed(t, 0, p, e.key)
            && var at := LeafPosition(t, p, LeafIndex(LeafEnts(t, p), e.key));
               at <= |Row(t, 0)| && Sorted(InsertAt(Row(t, 0), at, e))
  {
    hide Blocks, BlocksOk, LevelOk, Ordered, Flat, LeafIndex, Target, InsertAt;
    TargetReached(c, t, e.key);
    OrderedSorted(c, t);
    FitsInRow(c, t, Target(t, e.key), e.key);
    var p := Target(t, e.key);
    SortedInsert(Row(t, 0), LeafPosition(t, p, LeafIndex(LeafEnts(t, p), e.key)), e);
  }

  lemma FitsInRow(c: Caps, t: Tree, p: nat, key: int)
    requires Ready(c, t, 0) && Ordered(t) && p < |t.levels[0]| && Routed(t, 0, p, key)
    ensures var row, at := Row(t, 0), LeafPosition(t, p, LeafIndex(LeafEnts(t, p), key));
            at <= |row| && (at > 0 ==> row[at - 1].key <= key) && (at < |row| ==> key <= row[at].key)
  {
    hide Blocks, BlocksOk, LevelOk, Ordered, Flat, LeafIndex;
    var es := LeafEnts(t, p);
    var i := LeafIndex(es, key);
    EntryInRow(t, 0, p);
    LeafSorted(t, p);
    LeafIndexSorted(es, key);
    RowBeforeLeaf(c, t, p, key);
    RowAfterLeaf(c, t, p, key);
    var row, b := Row(t, 0), Before(t, 0, p);
    if i > 0 {
      assert row[b + (i - 1)] == es[i - 1];
    }
    if i < |es| {
      assert row[b + i] == es[i];
    }
  }

  lemma RowBeforeLeaf(c: Caps, t: Tree, p: nat, key: int)
    requires Ready(c, t, 0) && Ordered(t) && p < |t.levels[0]| && Routed(t, 0, p, key)
    ensures Before(t, 0, p) <= |Row(t, 0)| && (Before(t, 0, p) > 0 ==> Row(t, 0)[Before(t, 0, p) - 1].key <= key)
  {
    hide Blocks, BlocksOk, LevelOk, Ordered, Flat;
    EntryInRow(t, 0, p);
    if p > 0 {
      BeforeTarget(c, t, p, key, p - 1);
      LeafFilled(c, t, p - 1);
      EntryInRow(t, 0, p - 1);
      var es := LeafEnts(t, p - 1);
      assert Row(t, 0)[Before(t, 0, p - 1) + (|es| - 1)] == es[|es| - 1];
    } else {
      FlatNone(t.disk);
      assert t.levels[0][..0] == [];
    }
  }

  lemma RowAfterLeaf(c: Caps, t: Tree, p: nat, key: int)
    requires Ready(c, t, 0) && Ordered(t) && p < |t.levels[0]| && Routed(t, 0, p, key)
    ensures var at := Before(t, 0, p) + |LeafEnts(t, p)|; at < |Row(t, 0)| ==> key <= Row(t, 0)[at].key
  {
    hide Blocks, BlocksOk, LevelOk, Ordered, Flat;
    EntryInRow(t, 0, p);
    if p + 1 < |t.levels[0]| {
      BeforeTarget(c, t, p, key, p + 1);
      LeafFilled(c, t, p + 1);
      EntryInRow(t, 0, p + 1);
      assert Row(t, 0)[Before(t, 0, p + 1) + 0] == LeafEnts(t, p + 1)[0];
    }
  }

  /** A misplaced key is misfiled in its leaf, or its leaf splits and something is misfiled above. */
  lemma MisplacesMeans(c: Caps, t: Tree, key: int)
    requires Ready(c, t, 0) && Ordered(t) && Misplaces(c, t, key)
    ensures var es := LeafEnts(t, Target(t, key));
      && |es| >= Cap(c, 0)
      && (MisplacesAbove(c, t, key)
          || (LeafIndex(es, key) == Cap(c, 0) / 2 && key != es[Cap(c, 0) / 2 - 1].key))
  {
    hide Blocks, BlocksOk, LevelOk, Ordered, Flat, LeafIndex, LeafOf;
    TopView(c, t);
    ViewOfTarget(c, t, Top(t.root), |t.levels| - 1, 0, key);
    UpperReady(c, t, 0);
    TargetReached(c, t, key);
    NodeFacts(c, t, 0, Target(t, key));
  }

  /** Inserting a misplaced key into an ordered tree of distinct keys makes a stored key impossible to find. */
  lemma MisplacedLoses(c: Caps, t: Tree, t': Tree, e: Entry)
    requires Ready(c, t, 0) && Ordered(t) && Ascending(Row(t, 0)) && Ready(c, t', 0) && Misplaces(c, t, e.key)
    requires var p := Target(t, e.key);
             && LeafPlaced(c, t, t', p, LeafIndex(LeafEnts(t, p), e.key), e)
             && LeafPosition(t, p, LeafIndex(LeafEnts(t, p), e.key)) <= |Row(t, 0)|
             && Row(t', 0) == InsertAt(Row(t, 0), LeafPosition(t, p, LeafIndex(LeafEnts(t, p), e.key)), e)
    requires Leaning(t') && (MisplacesAbove(c, t, e.key) ==> MisfiledFrom(t', 1))
    ensures !AllFound(t')
  {
    hide Blocks, BlocksOk, LevelOk, Ordered, Ascending, Flat, LeafIndex, Target, Misplaces, MisplacesAbove,
         LeafPlaced, AllFound, InsertAt;
    hide MisfiledFrom, LeafLeans, LeansUp, Routed, Sorted, LeafPosition;
    RowStaysSorted(c, t, e);
    MisplacesMeans(c, t, e.key);
    var p := Target(t, e.key);
    var idx := LeafIndex(LeafEnts(t, p), e.key);
    if idx == Cap(c, 0) / 2 && e.key != LeafEnts(t, p)[Cap(c, 0) / 2 - 1].key {
      LostInLeaf(c, t, t', p, idx, e);
    } else {
      LostBelow(c, t, t', p, idx, e);
    }
  }

  /** With distinct keys, an insertion leaves every stored key to be found exactly when it does not misplace its own. */
  method InsertKeepsFound(tree: BmTree, key: int, value: int) returns (st: Status)
    requires tree.Valid() && Ordered(tree.Now()) && Ascending(tree.Contents())
    modifies tree
    ensures st == OK ==> tree.Valid()
    ensures st == OK ==> multiset(tree.Contents()) == multiset(old(tree.Contents())) + multiset{Entry(key, value)}
    ensures st == OK ==> (AllFound(tree.Now()) <==> !old(Misplaces(tree.caps, tree.Now(), key)))
  {
    hide Blocks, BlocksOk, LevelOk, Flat, LeafIndex, Target, Ordered, Misplaces, AllFound, Ascending, LeafPlaced,
         Leaning;
    hide MisfiledFrom, MisplacesAbove, LeafPosition, InsertAt, LeafEnts;
    ghost var t := tree.Now();
    ghost var at;
    st, at := tree.Insert(key, value);
    if st == OK {
      InsertBag(Row(t, 0), at, Entry(key, value));
      if Misplaces(tree.caps, t, key) {
        MisplacedLoses(tree.caps, t, tree.Now(), Entry(key, value));
      } else {
        OrderedFinds(tree.caps, tree.Now());
      }
    }
  }
}
