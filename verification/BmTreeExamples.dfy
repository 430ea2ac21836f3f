/** Inputs on which the tree does not do what an ordered map would, each reached from an empty tree. */
module BmTreeExamples {
  import opened BmTreeModel
  import opened BmTreeLocate
  import opened BmTreeOrder
  import opened BmTreeLeaves
  import opened BmTreeCounts
  import opened BmTreeTwoLeaves
  import opened BmTreeSteps
  import opened BmTreeSearch
  import opened BmTreeRuns
  import opened BmTreeContainer
  import A = BmTreeAscending

  // ---- Searching in two leaves ----

  /** A strict search that reaches the second leaf misses a key that neither it nor the end of the first leaf has. */
  lemma StrictMisses(t: Tree, key: int)
    requires TwoLeaves(t) && LeafEnts(t, 0) != [] && LastKey(LeafEnts(t, 0)) != key
    requires LeafIndex(LeafEnts(t, 1), key) < |LeafEnts(t, 1)|
    requires LeafEnts(t, 1)[LeafIndex(LeafEnts(t, 1), key)].key != key
    ensures FoundFrom(t, 1, key, 1, true).1 == []
  {
    hide LeafIndex;
    var a, b := LeafEnts(t, 0), LeafEnts(t, 1);
    assert Copied(b, key, LeafIndex(b, key) + 1, 1, true, false) == [];
    assert Copied(a, key, |a|, 1, true, true) == [];
    assert FoundBack(t.disk, t.levels[0], 0, |a|, key, 1, true) == [];
  }

  /** A search that is not strict and finds only higher keys in the second leaf answers with the end of the first. */
  lemma LooseGoesBack(t: Tree, key: int)
    requires TwoLeaves(t) && LeafEnts(t, 0) != []
    requires LeafIndex(LeafEnts(t, 1), key) < |LeafEnts(t, 1)|
    requires LeafEnts(t, 1)[LeafIndex(LeafEnts(t, 1), key)].key > key
    ensures FoundFrom(t, 1, key, 1, false) == (OK, [LeafEnts(t, 0)[|LeafEnts(t, 0)| - 1]])
  {
    hide LeafIndex;
    var a, b := LeafEnts(t, 0), LeafEnts(t, 1);
    assert Copied(b, key, LeafIndex(b, key) + 1, 1, false, false) == [];
    assert Copied(a, key, |a|, 1, false, true) == [a[|a| - 1]] + Copied(a, key, |a| - 1, 0, false, true);
    assert Copied(a, key, |a| - 1, 0, false, true) == [];
    assert FoundBack(t.disk, t.levels[0], 0, |a|, key, 1, false) == [a[|a| - 1]];
    var part := Copied(b, key, LeafIndex(b, key) + 1, 1, false, false);
    assert part + [a[|a| - 1]] == [a[|a| - 1]];
  }

  lemma StartsAbove(es: seq<Entry>, key: int)
    requires |es| >= 2 && es[0].key > key && es[1].key > key
    ensures LeafIndex(es, key) == 0
  {
    assert CeilFrom(es, key, 0) == 0;
  }

  lemma EndsBelow(es: seq<Entry>, key: int)
    requires forall i :: 0 <= i < |es| ==> es[i].key < key
    ensures LeafIndex(es, key) == |es|
  {}

  // ---- A full leaf, and what the fifth key makes of it ----

  function Four(): seq<Entry> {
    [Entry(10, 1), Entry(20, 2), Entry(30, 3), Entry(40, 4)]
  }

  /** The keys 10 to 40 in a root leaf, and four blocks to spare. */
  method NewTree() returns (tree: BmTree)
    ensures fresh(tree) && tree.Valid() && tree.caps == Caps(4, 4) && Ordered(tree.Now())
    ensures tree.Contents() == [] && |tree.levels| == 1 && |tree.pool| == 4
  {
    hide LevelOk, Flat, Ordered, Blocks, BlocksOk, Bag;
    tree := new BmTree(Caps(4, 4), [1, 2, 3, 4, 5]);
    OwnsFive(tree.pool);
    var st := tree.Init();
  }

  method FillLeaf() returns (tree: BmTree)
    ensures fresh(tree) && tree.Valid() && tree.caps == Caps(4, 4) && Ordered(tree.Now())
    ensures tree.Contents() == Four() && |tree.levels| == 1 && |tree.pool| == 4
  {
    hide LevelOk, Flat, Ordered, Blocks, BlocksOk, Bag;
    tree := NewTree();
    assert [] + Four() == Four();
    var ok;
    ghost var done, trail;
    ok, done, trail := InsertAscending(tree, Four());
  }

  lemma OwnsFive(pool: seq<Address>)
    requires pool == [1, 2, 3, 4, 5]
    ensures |Blocks(pool, [])| == 5 && BlocksOk(Blocks(pool, []))
  {}

  /** Five keys in two leaves. */
  ghost predicate Parts(t: Tree, left: seq<Entry>, right: seq<Entry>) {
    TwoLeaves(t) && LeafEnts(t, 0) == left && LeafEnts(t, 1) == right && Sep(t, 0, 0) == 20
  }

  lemma FifthKey(t: Tree, t': Tree, e: Entry)
    requires PutIn(Caps(4, 4), t, t', e) && |t.levels| == 1 && Row(t, 0) == Four() && (e.key == 25 || e.key > 40)
    ensures |t'.pool| + 2 == |t.pool|
    ensures e.key == 25 ==> Parts(t', Four()[..2] + [e], Four()[2..])
    ensures e.key > 40 ==> Parts(t', Four()[..2], Four()[2..] + [e])
  {
    hide LevelOk, Blocks, BlocksOk, Flat, PutIn;
    FirstSplit(Caps(4, 4), t, t', e);
    var es := Four();
    if e.key == 25 {
      MiddleOfFour(es);
    } else {
      EndsBelow(es, e.key);
    }
  }

  lemma MiddleOfFour(es: seq<Entry>)
    requires es == Four()
    ensures LeafIndex(es, 25) == 2
  {
    assert CeilFrom(es, 25, 2) == 2;
    assert CeilFrom(es, 25, 1) == 2;
    assert CeilFrom(es, 25, 0) == 2;
    assert LastEqual(es, 25, 2) == 2;
  }

  lemma EnoughForSplit(c: Caps, t: Tree, key: int)
    requires Ready(c, t, 0) && |t.levels| == 1
    ensures Taken(c, t, key) <= 2
  {
    FullLeafTakes(c, t, key);
  }

  /** The key 25 is misplaced, and 20 can no longer be found. */
  method LoseTwenty() returns (tree: BmTree, st: Status)
    ensures tree.Valid() && st == NotFound
    ensures exists e :: e in tree.Contents() && e.key == 20
  {
    hide LevelOk, Blocks, BlocksOk, Flat, Ordered, PutIn, Taken, Target, FoundFrom, Parts, LeafIndex;
    tree := FillLeaf();
    ghost var t := tree.Now();
    EnoughForSplit(tree.caps, t, 25);
    PutEntry(tree, Entry(25, 5));
    FifthKey(t, tree.Now(), Entry(25, 5));
    TwentyHidden(tree.caps, tree.Now());
    var value;
    ghost var found;
    st, value, found := tree.Search(20, true);
  }

  lemma TwentyHidden(c: Caps, t: Tree)
    requires Ready(c, t, 0) && Parts(t, Four()[..2] + [Entry(25, 5)], Four()[2..])
    ensures Target(t, 20) == 1 && FoundFrom(t, 1, 20, 1, true).1 == [] && Entry(20, 2) in Row(t, 0)
  {
    hide LevelOk, Blocks, BlocksOk, Flat, Target, FoundFrom, LeafIndex;
    TwoLeafTarget(c, t, 20);
    TwoLeafRow(t);
    StartsAbove(LeafEnts(t, 1), 20);
    assert LeafEnts(t, 0)[2] == Entry(25, 5) && LeafEnts(t, 0)[1] == Entry(20, 2);
    StrictMisses(t, 20);
    assert Row(t, 0)[1] == Entry(20, 2);
  }

  /** The keys 10 and 20, and right of the separator 20 the keys 30, 40 and 50. */
  method FiveAscending() returns (tree: BmTree)
    ensures fresh(tree) && tree.Valid() && tree.caps == Caps(4, 4) && |tree.pool| == 2 && Ordered(tree.Now())
    ensures Parts(tree.Now(), Four()[..2], Four()[2..] + [Entry(50, 5)])
  {
    hide LevelOk, Blocks, BlocksOk, Flat, Ordered, PutIn, Taken, Parts, Misplaces;
    tree := FillLeaf();
    ghost var t := tree.Now();
    A.TopKeyFits(tree.caps, t, 50);
    EnoughForSplit(tree.caps, t, 50);
    PutEntry(tree, Entry(50, 5));
    FifthKey(t, tree.Now(), Entry(50, 5));
  }

  /** A strict removal misses a key that is stored behind its separator. */
  method MissTwenty() returns (tree: BmTree, st: Status)
    ensures tree.Valid() && st == NotFound && exists e :: e in tree.Contents() && e.key == 20
  {
    hide LevelOk, Blocks, BlocksOk, Flat, Target, Holds, Parts, LeafTaken, Released;
    tree := FiveAscending();
    TwentyBehind(tree.caps, tree.Now());
    var value;
    ghost var at;
    st, value, at := tree.Remove(20, true);
  }

  lemma TwentyBehind(c: Caps, t: Tree)
    requires Ready(c, t, 0) && Parts(t, Four()[..2], Four()[2..] + [Entry(50, 5)])
    ensures !Holds(t, Target(t, 20), 20, true) && Entry(20, 2) in Row(t, 0)
  {
    hide LevelOk, Blocks, BlocksOk, Flat, Target;
    TwoLeafTarget(c, t, 20);
    TwoLeafRow(t);
    var es := LeafEnts(t, 1);
    NoneEqual(es, 20);
    assert Row(t, 0)[1] == Entry(20, 2);
  }

  lemma NoneEqual(es: seq<Entry>, key: int)
    requires forall i :: 0 <= i < |es| ==> es[i].key != key
    ensures StrictFrom(es, key, 0) == |es|
  {}

  /** A search that is not strict answers with a lower key: asked for 25, it gives the value of 20. */
  method AnswerTwenty() returns (tree: BmTree, st: Status, value: int)
    ensures tree.Valid() && st == OK && value == 2
    ensures Entry(20, 2) in tree.Contents() && Entry(30, 3) in tree.Contents()
  {
    hide LevelOk, Blocks, BlocksOk, Flat, Target, FoundFrom, Parts;
    tree := FiveAscending();
    TwentyAnswers(tree.caps, tree.Now());
    ghost var found;
    st, value, found := tree.Search(25, false);
  }

  lemma TwentyAnswers(c: Caps, t: Tree)
    requires Ready(c, t, 0) && Parts(t, Four()[..2], Four()[2..] + [Entry(50, 5)])
    ensures Target(t, 25) == 1 && FoundFrom(t, 1, 25, 1, false) == (OK, [Entry(20, 2)])
    ensures Entry(20, 2) in Row(t, 0) && Entry(30, 3) in Row(t, 0)
  {
    hide LevelOk, Blocks, BlocksOk, Flat, Target, FoundFrom, LeafIndex;
    TwoLeafTarget(c, t, 25);
    TwoLeafRow(t);
    StartsAbove(LeafEnts(t, 1), 25);
    LooseGoesBack(t, 25);
    assert Row(t, 0)[1] == Entry(20, 2) && Row(t, 0)[2] == Entry(30, 3);
  }

  /** A removal that is not strict is turned down although there are higher keys. */
  method TurnDown() returns (tree: BmTree, st: Status)
    ensures tree.Valid() && st == NotFound && exists e :: e in tree.Contents() && e.key >= 15
  {
    hide LevelOk, Blocks, BlocksOk, Flat, Target, Parts, PutIn, TookOut, CanTake, Taken, Released, Holds, LeafTaken;
    tree := FiveAscending();
    ghost var t := tree.Now();
    RoomForFive(tree.caps, t);
    PutEntry(tree, Entry(5, 0));
    ghost var t1 := tree.Now();
    FiveArrives(tree.caps, t, t1);
    var value := TakeEntry(tree, 15);
    TwentyLeaves(tree.caps, t1, tree.Now());
    ghost var at;
    st, value, at := tree.Remove(15, false);
  }

  lemma RoomForFive(c: Caps, t: Tree)
    requires Ready(c, t, 0) && c == Caps(4, 4) && Parts(t, Four()[..2], Four()[2..] + [Entry(50, 5)])
    ensures Taken(c, t, 5) == 0
  {
    hide LevelOk, Blocks, BlocksOk, Flat, Target;
    TwoLeafTarget(c, t, 5);
    TwoLeavesTake(c, t, 5);
  }

  lemma FiveArrives(c: Caps, t: Tree, t': Tree)
    requires PutIn(c, t, t', Entry(5, 0)) && c == Caps(4, 4) && Parts(t, Four()[..2], Four()[2..] + [Entry(50, 5)])
    ensures Parts(t', [Entry(5, 0)] + Four()[..2], Four()[2..] + [Entry(50, 5)]) && CanTake(t', 15)
  {
    hide LevelOk, Blocks, BlocksOk, Flat, Target, LeafIndex, LeafPosition, Taken;
    TwoLeafTarget(c, t, 5);
    StartsAbove(LeafEnts(t, 0), 5);
    TwoLeafTarget(c, t', 15);
    LastAbove(LeafEnts(t', 0), 15);
  }

  /** Three keys of which only the last one is above `key`. */
  lemma LastAbove(es: seq<Entry>, key: int)
    requires |es| == 3 && es[0].key < key && es[1].key < key < es[2].key
    ensures LeafIndex(es, key) == 2
  {
    assert CeilFrom(es, key, 2) == 2;
    assert CeilFrom(es, key, 1) == 2;
    assert LastEqual(es, key, 2) == 2;
  }

  lemma TwentyLeaves(c: Caps, t: Tree, t': Tree)
    requires TookOut(c, t, t', 15) && c == Caps(4, 4)
    requires Parts(t, [Entry(5, 0)] + Four()[..2], Four()[2..] + [Entry(50, 5)])
    ensures !Holds(t', Target(t', 15), 15, false) && Entry(30, 3) in Row(t', 0)
  {
    hide LevelOk, Blocks, BlocksOk, Flat, Target, LeafIndex, LeafPosition, Released, CanTake;
    TwoLeafTarget(c, t, 15);
    LastAbove(LeafEnts(t, 0), 15);
    assert LeafEnts(t', 0) == [Entry(5, 0), Entry(10, 1)];
    TwoLeafTarget(c, t', 15);
    EndsBelow(LeafEnts(t', 0), 15);
    TwoLeafRow(t');
    assert Row(t', 0)[2] == Entry(30, 3);
  }
}
