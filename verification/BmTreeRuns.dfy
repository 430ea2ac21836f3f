/** Whole runs of operations on one tree, and what they keep. A run ends at the first insertion that finds no block. */
module BmTreeRuns {
  import opened BmTreeModel
  import opened BmTreeBlocks
  import opened BmTreeLocate
  import opened BmTreeOrder
  import opened BmTreeCounts
  import opened BmTreeLeaves
  import opened BmTreeNodes
  import opened BmTreeSearch
  import opened BmTreeAscending
  import opened BmTreeSubtree
  import opened BmTreeTwoLeaves
  import opened BmTreeSteps
  import opened BmTreeContainer

  datatype Op = Put(key: int, value: int) | Take(key: int, strict: bool)

  /** The entries a run inserts. */
  ghost function Puts(ops: seq<Op>): seq<Entry> {
    if ops == [] then []
    else
      var op := ops[|ops| - 1];
      Puts(ops[..|ops| - 1]) + if op.Put? then [Entry(op.key, op.value)] else []
  }

  /** `out` holds, in order, an entry for every removal that found one: with the asked key, or at least it. */
  ghost predicate Answered(ops: seq<Op>, out: seq<Entry>) {
    if ops == [] then out == []
    else
      var op, rest := ops[|ops| - 1], ops[..|ops| - 1];
      || Answered(rest, out)
      || (&& op.Take? && out != []
          && (var e := out[|out| - 1]; if op.strict then e.key == op.key else e.key >= op.key)
          && Answered(rest, out[..|out| - 1]))
  }

  /** A tree that held `start` holds `now` after `ops`, which took `out` from it. */
  ghost predicate Balanced(start: seq<Entry>, ops: seq<Op>, out: seq<Entry>, now: seq<Entry>) {
    && Answered(ops, out)
    && multiset(now) + multiset(out) == multiset(start) + multiset(Puts(ops))
  }

  lemma NothingDone(start: seq<Entry>)
    ensures Balanced(start, [], [], start)
  {}

  lemma PutDone(start: seq<Entry>, ops: seq<Op>, op: Op, out: seq<Entry>, before: seq<Entry>, at: nat)
    requires Balanced(start, ops, out, before) && op.Put? && at <= |before|
    ensures Balanced(start, ops + [op], out, InsertAt(before, at, Entry(op.key, op.value)))
  {
    var e := Entry(op.key, op.value);
    assert (ops + [op])[..|ops|] == ops;
    InsertBag(before, at, e);
    var now := InsertAt(before, at, e);
    assert multiset(now) + multiset(out) == (multiset(before) + multiset(out)) + multiset{e};
    assert multiset(Puts(ops) + [e]) == multiset(Puts(ops)) + multiset{e};
  }

  lemma TakeDone(start: seq<Entry>, ops: seq<Op>, op: Op, out: seq<Entry>, before: seq<Entry>, at: nat)
    requires Balanced(start, ops, out, before) && op.Take? && at < |before|
    requires if op.strict then before[at].key == op.key else before[at].key >= op.key
    ensures Balanced(start, ops + [op], out + [before[at]], RemoveAt(before, at))
  {
    var e, now := before[at], RemoveAt(before, at);
    assert (ops + [op])[..|ops|] == ops && (out + [e])[..|out|] == out;
    RemoveBag(before, at);
    assert multiset(now) + (multiset(out) + multiset{e}) == (multiset(now) + multiset{e}) + multiset(out);
    assert multiset(out + [e]) == multiset(out) + multiset{e};
    assert Puts(ops + [op]) == Puts(ops);
  }

  lemma NothingTaken(start: seq<Entry>, ops: seq<Op>, op: Op, out: seq<Entry>, now: seq<Entry>)
    requires Balanced(start, ops, out, now) && op.Take?
    ensures Balanced(start, ops + [op], out, now)
  {
    assert (ops + [op])[..|ops|] == ops;
    assert Puts(ops + [op]) == Puts(ops);
  }

  /** `t'` is what the operation makes of `t`. */
  ghost predicate Leads(c: Caps, op: Op, t: Tree, t': Tree) {
    && t.levels != [] && t'.levels != []
    && match op
       case Put(key, value) => PutIn(c, t, t', Entry(key, value))
       case Take(key, strict) =>
         if !Holds(t, Target(t, key), key, strict) then t' == t
         else
           var at := LeafPosition(t, Target(t, key), TakeIndex(LeafEnts(t, Target(t, key)), key, strict));
           && at < |Row(t, 0)| && Row(t', 0) == RemoveAt(Row(t, 0), at)
           && |t'.pool| == |t.pool| + Released(c, t, key)
           && TrimmedTo(c, t, 0, Target(t, key), TakeIndex(LeafEnts(t, Target(t, key)), key, strict), t')
  }

  /** The trees `trail` come one after the other by the operations `ops`. */
  ghost predicate Trodden(c: Caps, ops: seq<Op>, trail: seq<Tree>) {
    |trail| == |ops| + 1 && forall i :: 0 <= i < |ops| ==> Leads(c, ops[i], trail[i], trail[i + 1])
  }

  lemma StepOn(c: Caps, ops: seq<Op>, trail: seq<Tree>, op: Op, t: Tree)
    requires Trodden(c, ops, trail) && Leads(c, op, trail[|ops|], t)
    ensures Trodden(c, ops + [op], trail + [t])
  {
    hide Leads;
  }

  /**
   Whatever is inserted and removed, the tree keeps its shape, its blocks, and exactly what was not taken out. Only an
   insertion that wants more blocks than there are ends the run, along `trail`, before its time.
   */
  method Run(tree: BmTree, ops: seq<Op>)
    returns (done: nat, taken: seq<int>, ghost out: seq<Entry>, ghost trail: seq<Tree>)
    requires tree.Valid()
    modifies tree
    ensures done <= |ops| && Trodden(tree.caps, ops[..done], trail) && trail[0] == old(tree.Now())
    ensures var t := trail[done];
      && Ready(tree.caps, t, 0) && Blocks(t.pool, t.levels) == old(tree.Owned())
      && Answered(ops[..done], out) && taken == Recs(out)
      && multiset(Row(t, 0)) + multiset(out) == multiset(old(tree.Contents())) + multiset(Puts(ops[..done]))
    ensures done == |ops| ==> tree.Valid() && trail[done] == tree.Now()
    ensures done < |ops| ==> ops[done].Put? && Taken(tree.caps, trail[done], ops[done].key) > |trail[done].pool|
  {
    hide LevelOk, Blocks, BlocksOk, Answered, Puts, Balanced, Flat, Ordered, Misplaces, Target, LeafPosition, LeafEnts;
    hide Holds, LeafPlaced, Taken, Released, Trodden, InsertAt, RemoveAt, TakeIndex, LeafIndex, Leaning, LeafTaken;
    hide GrownTo, TrimmedTo, StuntedTo;
    ghost var start := tree.Contents();
    done, taken, out, trail := 0, [], [], [tree.Now()];
    NothingDone(start);
    NothingTrodden(tree.caps, tree.Now());
    while done < |ops|
      invariant done <= |ops| && tree.Valid() && tree.Owned() == old(tree.Owned()) && tree.levels != []
      invariant Balanced(start, ops[..done], out, tree.Contents()) && taken == Recs(out)
      invariant Trodden(tree.caps, ops[..done], trail) && |trail| == done + 1
      invariant trail[0] == old(tree.Now()) && trail[done] == tree.Now()
    {
      ghost var next := ops[..done] + [ops[done]];
      assert ops[..done + 1] == next;
      IsBalanced(start, ops[..done], out, tree.Contents());
      var st, value;
      ghost var at;
      ghost var before := tree.Contents();
      match ops[done] {
        case Put(key, v) =>
          st, at := tree.Insert(key, v);
          if st != OK { return; }
          PutDone(start, ops[..done], ops[done], out, before, at);
        case Take(key, strict) =>
          st, value, at := tree.Remove(key, strict);
          if st == OK {
            TakeDone(start, ops[..done], ops[done], out, before, at);
            out, taken := out + [before[at]], taken + [value];
          } else {
            NothingTaken(start, ops[..done], ops[done], out, before);
          }
      }
      StepOn(tree.caps, ops[..done], trail, ops[done], tree.Now());
      trail := trail + [tree.Now()];
      done := done + 1;
    }
    IsBalanced(start, ops[..done], out, tree.Contents());
  }

  lemma NothingTrodden(c: Caps, t: Tree)
    ensures Trodden(c, [], [t])
  {}

  lemma IsBalanced(start: seq<Entry>, ops: seq<Op>, out: seq<Entry>, now: seq<Entry>)
    requires Balanced(start, ops, out, now)
    ensures Answered(ops, out) && multiset(now) + multiset(out) == multiset(start) + multiset(Puts(ops))
  {}

  // ---- Ascending insertions ----

  ghost predicate Ascending(es: seq<Entry>) {
    forall i, j :: 0 <= i < j < |es| ==> es[i].key < es[j].key
  }

  /** The entries put in one by one. */
  ghost function AllPut(es: seq<Entry>): (r: seq<Op>)
    ensures |r| == |es|
  {
    seq(|es|, i requires 0 <= i < |es| => Put(es[i].key, es[i].rec))
  }

  lemma PutNext(es: seq<Entry>, i: nat)
    requires i < |es|
    ensures AllPut(es[..i + 1]) == AllPut(es[..i]) + [Put(es[i].key, es[i].rec)]
  {}

  lemma NothingPut(c: Caps, es: seq<Entry>, t: Tree)
    ensures Trodden(c, AllPut(es[..0]), [t])
  {}

  /** Insertions in strictly ascending order keep the tree ordered, so that every strict search is exact. */
  method InsertAscending(tree: BmTree, es: seq<Entry>) returns (ok: bool, ghost done: nat, ghost trail: seq<Tree>)
    requires tree.Valid() && Ordered(tree.Now()) && Ascending(tree.Contents() + es)
    modifies tree
    ensures ok ==> tree.Valid() && Ordered(tree.Now()) && tree.Owned() == old(tree.Owned())
    ensures ok ==> tree.Contents() == old(tree.Contents()) + es
    ensures done <= |es| && Trodden(tree.caps, AllPut(es[..done]), trail) && trail[0] == old(tree.Now())
    ensures ok ==> done == |es| && trail[done] == tree.Now()
    ensures !ok ==>
      && done < |es| && Ready(tree.caps, trail[done], 0) && Ordered(trail[done])
      && Row(trail[done], 0) == old(tree.Contents()) + es[..done]
      && Taken(tree.caps, trail[done], es[done].key) > |trail[done].pool|
    ensures old(|tree.levels| == 1 && |tree.Contents()| + |es| <= tree.caps.leaf) ==>
      ok && tree.levels == old(tree.levels) && tree.pool == old(tree.pool)
  {
    hide LevelOk, Blocks, BlocksOk, Ordered, Ascending, Flat, Misplaces, LeafOf, LeafIndex, LeafPlaced, Taken, Target;
    hide LeafPosition, Leaning, MisplacesAbove, MisfiledFrom, GrownTo, StuntedTo, Trodden, AllPut, LeafEnts, InsertAt;
    ghost var start := tree.Contents();
    done, trail := 0, [tree.Now()];
    NothingPut(tree.caps, es, tree.Now());
    for i := 0 to |es|
      invariant Trodden(tree.caps, AllPut(es[..i]), trail) && |trail| == i + 1
      invariant trail[0] == old(tree.Now()) && trail[i] == tree.Now() && done == i
      invariant tree.Valid() && Ordered(tree.Now()) && tree.Owned() == old(tree.Owned())
      invariant tree.Contents() == start + es[..i]
      invariant old(|tree.levels|) == 1 && |start| + |es| <= tree.caps.leaf ==>
        tree.levels == old(tree.levels) && tree.pool == old(tree.pool)
    {
      ghost var t := tree.Now();
      if |tree.levels| == 1 { FullLeafTakes(tree.caps, t, es[i].key); }
      NextAtEnd(tree.caps, tree.Now(), start, es, i);
      var st;
      ghost var at;
      st, at := tree.Insert(es[i].key, es[i].rec);
      if st != OK { return false, done, trail; }
      StepOn(tree.caps, AllPut(es[..i]), trail, Put(es[i].key, es[i].rec), tree.Now());
      PutNext(es, i);
      trail := trail + [tree.Now()];
      done := i + 1;
      if |t.levels| == 1 && |start| + i < tree.caps.leaf {
        RoomInLeaf(tree.caps, t, tree.Now(), Entry(es[i].key, es[i].rec));
        PoolStays(t.pool, tree.pool);
      }
      NextAppended(start, es, i);
    }
    assert es[..|es|] == es;
    ok := true;
  }

  lemma RoomInLeaf(c: Caps, t: Tree, t': Tree, e: Entry)
    requires Ready(c, t, 0) && |t.levels| == 1 && |Row(t, 0)| < Cap(c, 0)
    requires LeafPlaced(c, t, t', Target(t, e.key), LeafIndex(LeafEnts(t, Target(t, e.key)), e.key), e)
    ensures t'.levels == t.levels
  {
    hide LeafIndex;
    OneLeafTarget(c, t, e.key);
    OneLeafRow(c, t);
  }

  lemma PoolStays(a: seq<Address>, b: seq<Address>)
    requires b <= a && |b| == |a|
    ensures b == a
  {}

  lemma NextAtEnd(c: Caps, t: Tree, start: seq<Entry>, es: seq<Entry>, i: nat)
    requires Ready(c, t, 0) && Ordered(t) && i < |es| && Row(t, 0) == start + es[..i] && Ascending(start + es)
    ensures !Misplaces(c, t, es[i].key)
    ensures var p := Target(t, es[i].key);
            LeafPosition(t, p, LeafIndex(LeafEnts(t, p), es[i].key)) == |Row(t, 0)|
  {
    AboveAll(start, es, i);
    TopKeyFits(c, t, es[i].key);
  }

  lemma NextAppended(start: seq<Entry>, es: seq<Entry>, i: nat)
    requires i < |es|
    ensures InsertAt(start + es[..i], |start + es[..i]|, Entry(es[i].key, es[i].rec)) == start + es[..i + 1]
  {
    assert es[..i + 1] == es[..i] + [es[i]];
  }

  lemma AboveAll(start: seq<Entry>, es: seq<Entry>, i: nat)
    requires Ascending(start + es) && i < |es|
    ensures forall e :: e in start + es[..i] ==> e.key < es[i].key
  {
    forall e | e in start + es[..i] ensures e.key < es[i].key {
      var j :| 0 <= j < |start + es[..i]| && (start + es[..i])[j] == e;
      assert (start + es)[j] == e && (start + es)[|start| + i] == es[i];
    }
  }

  // ---- Single steps ----

  /** An insertion that the pool has blocks enough for. */
  method PutEntry(tree: BmTree, e: Entry)
    requires tree.Valid() && Taken(tree.caps, tree.Now(), e.key) <= |tree.pool|
    modifies tree
    ensures tree.Valid() && PutIn(tree.caps, old(tree.Now()), tree.Now(), e)
    ensures old(Ordered(tree.Now())) && !old(Misplaces(tree.caps, tree.Now(), e.key)) ==> Ordered(tree.Now())
  {
    hide LevelOk, Blocks, BlocksOk, Flat, Taken, InsertAt, LeafIndex, LeafPosition, Target, Ordered, Misplaces, Leaning;
    ghost var t := tree.Now();
    var st;
    ghost var at;
    st, at := tree.Insert(e.key, e.rec);
    assert PutAt(t, e.key) == at;
  }

  /** A removal that is not strict and has something to take. */
  method TakeEntry(tree: BmTree, key: int) returns (value: int)
    requires tree.Valid() && CanTake(tree.Now(), key)
    modifies tree
    ensures tree.Valid() && TookOut(tree.caps, old(tree.Now()), tree.Now(), key)
    ensures value == old(TakenEntry(tree.Now(), key)).rec
  {
    hide LevelOk, Blocks, BlocksOk, Flat, Released, RemoveAt, LeafIndex, LeafPosition, Target, Ordered, Holds,
         TakeIndex;
    hide Spare, LeafTaken;
    ghost var t := tree.Now();
    var st;
    ghost var at;
    st, value, at := tree.Remove(key, false);
    assert TakenAt(t, key) == at;
  }

  /** What a strict search reports for every key, when no two entries share one. */
  lemma {:induction false} AscendingMatch(es: seq<Entry>, key: int)
    requires Ascending(es)
    ensures (forall i :: 0 <= i < |es| && es[i].key == key ==> Matching(es, key) == [es[i]])
    ensures (forall i :: 0 <= i < |es| ==> es[i].key != key) ==> Matching(es, key) == []
  {
    if es != [] {
      var n := |es| - 1;
      AscendingMatch(es[..n], key);
      if es[n].key == key {
        MatchingNone(es[..n], key);
      }
    }
  }

  /** After ascending insertions a strict search gives the value of every key in the tree, and no other key is found. */
  method AscendingThenSearch(tree: BmTree, es: seq<Entry>, key: int)
    returns (ok: bool, st: Status, value: int, ghost done: nat, ghost trail: seq<Tree>)
    requires tree.Valid() && Ordered(tree.Now()) && Ascending(tree.Contents() + es)
    modifies tree
    ensures ok ==> forall e :: e in old(tree.Contents()) + es && e.key == key ==> st == OK && value == e.rec
    ensures ok && st != NotFound ==> Entry(key, value) in old(tree.Contents()) + es
    ensures done <= |es| && Trodden(tree.caps, AllPut(es[..done]), trail) && trail[0] == old(tree.Now())
    ensures !ok ==> done < |es| && Taken(tree.caps, trail[done], es[done].key) > |trail[done].pool|
  {
    hide Ready, Ordered, Flat, Ascending, Matching, FoundFrom, Target, Trodden, AllPut, Taken;
    st, value := NotFound, 0;
    ok, done, trail := InsertAscending(tree, es);
    if ok {
      ghost var found;
      st, value, found := tree.Search(key, true);
      OnlyMatch(tree.caps, tree.Now(), key, found);
    }
  }

  lemma OnlyMatch(c: Caps, t: Tree, key: int, found: seq<Entry>)
    requires Ready(c, t, 0) && Ordered(t) && Ascending(Row(t, 0)) && Target(t, key) < |t.levels[0]|
    requires found == FoundFrom(t, Target(t, key), key, 1, true).1
    ensures forall e :: e in Row(t, 0) && e.key == key ==> found == [e]
    ensures found != [] ==> found[0] in Row(t, 0) && found[0].key == key
  {
    hide Ordered, Flat, Matching, FoundFrom, Target;
    StrictSearchExact(c, t, key, 1);
    AscendingMatch(Row(t, 0), key);
    MatchingAll(Row(t, 0), key);
    assert found == AtMost(Matching(Row(t, 0), key), 1);
    if found != [] {
      assert found[0] in Matching(Row(t, 0), key);
    }
  }

  // ---- A tree that has not split yet ----

  /**
   With one leaf the tree is a sorted multimap: insertions into it keep it one as long as the leaf has room, a search
   starts at the least key from the asked one upwards, and a removal takes just that entry, or one with just that key.
   */
  lemma OneLeafMap(c: Caps, t: Tree, key: int, max: nat)
    requires Ready(c, t, 0) && |t.levels| == 1 && Sorted(Row(t, 0))
    ensures Ordered(t) && Target(t, key) == 0 && |t.levels[0]| == 1 && LeafEnts(t, 0) == Row(t, 0)
    ensures |Row(t, 0)| < c.leaf ==> !Misplaces(c, t, key)
    ensures var r := FoundFrom(t, 0, key, max, false); var i := LeafIndex(Row(t, 0), key);
            if i == |Row(t, 0)| then r == (if max == 0 then OK else NotFound, [])
            else IsCeiling(t, Row(t, 0)[i], key) && r == (OK, AtMost(Reverse(Row(t, 0)[..i + 1]), max))
    ensures var i := TakeIndex(Row(t, 0), key, false);
            if Holds(t, 0, key, false)
            then i < |Row(t, 0)| && LeafPosition(t, 0, i) == i && IsCeiling(t, Row(t, 0)[i], key)
            else forall e :: e in Row(t, 0) ==> e.key < key
    ensures Holds(t, 0, key, true) <==> Stored(t, key)
  {
    hide LevelOk, Blocks, BlocksOk, Flat, Matching, Reverse, LeafIndex, Misplaces, Copied;
    OneLeafFacts(c, t, key);
    OneLeafTarget(c, t, key);
    MatchingAll(Row(t, 0), key);
    var es, i := Row(t, 0), LeafIndex(Row(t, 0), key);
    if i < |es| {
      LeafIndexAround(es, key);
      OneLeafLoose(es, key, i + 1, max);
    }
    if StrictFrom(es, key, 0) == |es| {
      StrictFromNone(es, key, 0);
      MatchingNone(es, key);
    } else {
      assert es[StrictFrom(es, key, 0)] in Matching(es, key);
    }
  }

  lemma OneLeafFacts(c: Caps, t: Tree, key: int)
    requires Ready(c, t, 0) && |t.levels| == 1 && Sorted(Row(t, 0))
    ensures Ordered(t) && Target(t, key) == 0 && |t.levels[0]| == 1 && LeafEnts(t, 0) == Row(t, 0)
    ensures |Row(t, 0)| < c.leaf ==> !Misplaces(c, t, key)
  {
    hide LevelOk, Blocks, BlocksOk, Flat, LeafIndex;
    OneLeafTarget(c, t, key);
    OneLeafRow(c, t);
    assert LeafOk(t, 0);
  }
}
