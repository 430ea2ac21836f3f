/**
 The space allocator: a Bm+tree of free extents, filed by length, that takes its own blocks from a stack of spare
 clusters; the allocator keeps that stack between a low and a high mark.
 */
module Allocators {
  import opened FreeSpace
  import opened BmTreeSteps
  import opened RefillRounds
  import M = BmTreeModel
  import N = BmTreeCounts
  import Leaves = BmTreeLeaves
  import Nodes = BmTreeNodes
  import One = BmTreeTwoLeaves
  import T = BmTreeContainer
  import L = BmTreeLocate
  import W = BmTreeSubtree
  import P = BmTreeConsumers
  import V = Volumes
  import X = Multiples

  type Extent = V.Extent

  /** A file system whose free extents are filed by length, with `held` in use. */
  ghost predicate InOrder(fbt: T.BmTree, clusterSize: nat, deviceSize: nat, lowMark: nat, highMark: nat,
          held: seq<Extent>)
    reads fbt
  {
    && fbt.Valid() && fbt.levels != []
    && 0 < clusterSize < V.WORD && deviceSize < V.WORD && lowMark <= highMark && |fbt.pool| <= highMark
    && Filed(fbt.Contents())
    && Sane(Ledger(Extents(fbt.Contents()), fbt.Owned(), held), clusterSize, deviceSize)
  }

  /** What became of a request: the tree without the extent taken, then with its rest, and the rounds of refilling. */
  datatype Course = Course(mid: M.Tree, start: M.Tree, rounds: seq<Round>, last: Round)

  /** The rest of the extent that is taken for `length` bytes needs more blocks to be filed than there are. */
  ghost predicate NoRoom(c: M.Caps, t: M.Tree, mid: M.Tree, length: nat) {
    && TookOut(c, t, mid, length)
    && TakenEntry(t, length).key > length && N.Taken(c, mid, TakenEntry(t, length).key - length) > |mid.pool|
  }

  /** The front of the extent that is taken for `length` bytes is handed out, its rest is filed again. */
  ghost predicate Handed(c: M.Caps, t: M.Tree, mid: M.Tree, start: M.Tree, length: nat, target: Extent) {
    && TookOut(c, t, mid, length) && TakenEntry(t, length).key >= length
    && target == V.Extent(Unpacked(TakenEntry(t, length).rec).offset, length)
    && var rest := TakenEntry(t, length).key - length;
       if rest == 0 then start == mid else PutIn(c, mid, start, Filing(V.Extent(target.offset + length, rest)))
  }

  /**
   What a request comes to that fits: the tree is at its high mark, or the rest of the extent cannot be filed, or the
   front is handed out and refilling ends as it does.
   */
  ghost predicate Allocated(m: Marks, c: M.Caps, t: M.Tree, length: nat, patience: nat, r: Result, target: Extent,
          course: Course, now: M.Tree)
  {
    if |t.pool| + N.Released(c, t, length) > m.high then r == Reentrant
    else if NoRoom(c, t, course.mid, length) then r == NoSpace
    else
      && Handed(c, t, course.mid, course.start, length, target)
      && Ended(m, c, course.start, patience, course.rounds, course.last, r, now)
  }

  /** What comes of every request. */
  ghost predicate Answered(m: Marks, c: M.Caps, t: M.Tree, length: nat, patience: nat, r: Result, target: Extent,
          course: Course, now: M.Tree)
    requires m.size > 0
  {
    if length != V.BLOCK_SIZE && length % m.size != 0 then r == Misaligned
    else if !CanTake(t, length) then r == WontFit
    else Allocated(m, c, t, length, patience, r, target, course, now)
  }

  /** An extent finds no block for being filed, after its first cluster became a spare below the high mark. */
  ghost predicate CannotFile(m: Marks, c: M.Caps, t: M.Tree, e: Extent) {
    if |t.pool| >= m.high || e.length < m.size then N.Taken(c, t, e.length) > |t.pool|
    else e.length > m.size && N.Taken(c, t, e.length - m.size) > |t.pool| + 1
  }

  /** Below the high mark its first cluster is the topmost spare and the rest is filed, and all of it otherwise. */
  ghost predicate Freed(m: Marks, c: M.Caps, t: M.Tree, e: Extent, now: M.Tree) {
    if |t.pool| >= m.high || e.length < m.size then PutIn(c, t, now, Filing(e))
    else
      var t1, rest := t.(pool := t.pool + [e.offset]), V.Extent(e.offset + m.size, e.length - m.size);
      if rest.length == 0 then now == t1 else PutIn(c, t1, now, Filing(rest))
  }

  lemma HandedWhole(c: M.Caps, t: M.Tree, mid: M.Tree, length: nat, e: Extent)
    requires TookOut(c, t, mid, length) && TakenEntry(t, length).key == length
    requires e == V.Extent(Unpacked(TakenEntry(t, length).rec).offset, length)
    ensures !NoRoom(c, t, mid, length) && Handed(c, t, mid, mid, length, e)
  {
    hide TookOut, TakenEntry, Unpacked;
  }

  lemma HandedFront(c: M.Caps, t: M.Tree, mid: M.Tree, start: M.Tree, length: nat, e: Extent, rest: Extent)
    requires TookOut(c, t, mid, length) && TakenEntry(t, length).key > length
    requires e == V.Extent(Unpacked(TakenEntry(t, length).rec).offset, length)
    requires rest == V.Extent(e.offset + length, TakenEntry(t, length).key - length)
    requires N.Taken(c, mid, rest.length) <= |mid.pool| ==> PutIn(c, mid, start, Filing(rest))
    ensures NoRoom(c, t, mid, length) <==> N.Taken(c, mid, rest.length) > |mid.pool|
    ensures !NoRoom(c, t, mid, length) ==> Handed(c, t, mid, start, length, e)
  {
    hide TookOut, TakenEntry, Unpacked, PutIn, Filing, N.Taken;
  }

  lemma InOrderReady(fbt: T.BmTree, clusterSize: nat, deviceSize: nat, lowMark: nat, highMark: nat, held: seq<Extent>)
    requires InOrder(fbt, clusterSize, deviceSize, lowMark, highMark, held)
    ensures M.Ready(fbt.caps, fbt.Now(), 0)
  {}

  /** A root leaf that gives up an extent has room and its level afterwards. */
  lemma OneLeafTakes(c: M.Caps, t: M.Tree, t': M.Tree, key: int, took: bool)
    requires M.Ready(c, t, 0) && (took ==> TookOut(c, t, t', key))
    ensures |t.levels| == 1 ==> N.Released(c, t, key) == 0
    ensures |t.levels| == 1 && took ==> t'.levels == t.levels && RootRoom(c, t')
  {
    hide TookOut, N.Released, M.LevelOk, M.Blocks, M.BlocksOk;
    if |t.levels| == 1 {
      One.FullLeafTakes(c, t, key);
      if took {
        OneLeafTook(c, t, t', key);
        TookReady(c, t, t', key);
      }
    }
  }

  /** The tree is a root leaf with room, whatever its pool. */
  ghost predicate RootRoom(c: M.Caps, t: M.Tree) {
    |t.levels| == 1 && |M.Row(t, 0)| < M.Cap(c, 0)
  }

  lemma OneLeafGives(c: M.Caps, t: M.Tree, t': M.Tree, e: M.Entry, put: bool)
    requires M.Ready(c, t, 0) && (put ==> PutIn(c, t, t', e))
    ensures RootRoom(c, t) ==> N.Taken(c, t, e.key) == 0
    ensures RootRoom(c, t) && put ==> t'.levels == t.levels
  {
    hide PutIn, N.Taken, M.LevelOk, M.Blocks, M.BlocksOk;
    if RootRoom(c, t) {
      One.FullLeafTakes(c, t, e.key);
      if put {
        OneLeafPut(c, t, t', e);
      }
    }
  }

  lemma PushReady(c: M.Caps, t: M.Tree, a: M.Address)
    requires M.Ready(c, t, 0) && a !in M.Blocks(t.pool, t.levels) && a != 0
    ensures M.Ready(c, t.(pool := t.pool + [a]), 0)
    ensures M.Blocks(t.pool + [a], t.levels) == M.Blocks(t.pool, t.levels) + multiset{a}
  {
    hide M.LevelOk, M.Bag;
    assert M.Blocks(t.pool + [a], t.levels) == M.Blocks(t.pool, t.levels) + multiset{a};
  }

  lemma InOrderRooted(fbt: T.BmTree, clusterSize: nat, deviceSize: nat, lowMark: nat, highMark: nat, held: seq<Extent>)
    requires InOrder(fbt, clusterSize, deviceSize, lowMark, highMark, held)
    ensures fbt.levels != [] && clusterSize > 0 && |fbt.pool| <= highMark && lowMark <= highMark
  {}

  lemma PopReady(c: M.Caps, t: M.Tree, a: M.Address)
    requires M.Ready(c, t, 0) && t.pool != [] && a == t.pool[|t.pool| - 1]
    ensures M.Ready(c, t.(pool := t.pool[..|t.pool| - 1]), 0)
    ensures M.Blocks(t.pool, t.levels) == M.Blocks(t.pool[..|t.pool| - 1], t.levels) + multiset{a}
  {
    hide M.LevelOk, M.Bag;
    var rest := t.pool[..|t.pool| - 1];
    assert t.pool == rest + [a];
    assert M.Blocks(t.pool, t.levels) == M.Blocks(rest, t.levels) + multiset{a};
    forall x ensures M.Blocks(rest, t.levels)[x] <= M.Blocks(t.pool, t.levels)[x] {}
  }

  lemma Distribute(size: nat, a: nat, c: nat)
    ensures size * (a + c) == a * size + size * c
  {}

  lemma GoesOn(f: P.Consumer)
    requires forall h: seq<M.Entry>, e: M.Entry :: f(h, e) == P.Go
    ensures P.Patient(f)
  {
    forall h: seq<M.Entry>, e: M.Entry ensures P.Settles(f, h, e) {
      assert f(h + P.Times(e, 0), e) != P.Again;
    }
  }

  class Allocator {
    const fbt: T.BmTree
    const clusterSize: nat
    const deviceSize: nat
    const lowMark: nat
    const highMark: nat
    /** The extents that were handed out. */
    ghost var held: seq<Extent>

    /** The books, with `held` in use. */
    ghost function Book(held: seq<Extent>): Ledger
      reads fbt
      requires fbt.levels != []
    {
      Ledger(Extents(fbt.Contents()), fbt.Owned(), held)
    }

    ghost predicate Sound(held: seq<Extent>)
      reads fbt
    {
      InOrder(fbt, clusterSize, deviceSize, lowMark, highMark, held)
    }

    ghost predicate Valid()
      reads this, fbt
    {
      Sound(held)
    }

    ghost function Limits(): Marks {
      Marks(clusterSize, lowMark, highMark)
    }

    ghost predicate Since(l: Ledger, held: seq<Extent>)
      reads fbt
      requires fbt.levels != []
    {
      Balanced(l, Book(held), clusterSize)
    }

    constructor (fbt: T.BmTree, clusterSize: nat, deviceSize: nat, lowMark: nat, highMark: nat, ghost held: seq<Extent>)
      requires InOrder(fbt, clusterSize, deviceSize, lowMark, highMark, held)
      ensures this.fbt == fbt && this.held == held && Valid()
      ensures this.clusterSize == clusterSize && this.deviceSize == deviceSize
      ensures this.lowMark == lowMark && this.highMark == highMark
    {
      this.fbt, this.clusterSize, this.deviceSize := fbt, clusterSize, deviceSize;
      this.lowMark, this.highMark, this.held := lowMark, highMark, held;
    }

    lemma SinceTwice(l: Ledger, l1: Ledger, h: seq<Extent>)
      requires fbt.levels != [] && Balanced(l, l1, clusterSize) && Since(l1, h)
      ensures Since(l, h)
    {
      BalancedTwice(l, l1, Book(h), clusterSize);
    }

    lemma DropNothing(l: Ledger, h: seq<Extent>, e: Extent)
      requires Sound(h + [e]) && e.length == 0 && fbt.levels != [] && Since(l, h + [e])
      ensures Sound(h) && Since(l, h)
    {
      DropEmpty(Book(h + [e]), e, h, clusterSize);
      BalancedSane(Book(h + [e]), Book(h), clusterSize, deviceSize);
      BalancedTwice(l, Book(h + [e]), Book(h), clusterSize);
    }

    // ---- The free blocks tree ----

    /** Takes a free extent of at least the given length out of the tree. */
    method TakeFree(length: nat, ghost h: seq<Extent>) returns (r: Result, e: Extent)
      requires Sound(h)
      modifies fbt
      ensures r == Ok || r == NotFound || r == Reentrant
      ensures r == NotFound <==> !old(CanTake(fbt.Now(), length))
      ensures r == NotFound ==> Sound(h) && fbt.Now() == old(fbt.Now()) && fbt.levels != [] && Book(h) == old(Book(h))
      ensures r == Reentrant <==>
        old(CanTake(fbt.Now(), length)) && |old(fbt.pool)| + old(N.Released(fbt.caps, fbt.Now(), length)) > highMark
      ensures r == Ok ==>
        && TookOut(fbt.caps, old(fbt.Now()), fbt.Now(), length)
        && e == Unpacked(old(TakenEntry(fbt.Now(), length)).rec) && e.length == old(TakenEntry(fbt.Now(), length)).key
        && length <= e.length < V.WORD
      ensures r == Ok ==> Sound(h + [e]) && fbt.levels != [] && Since(old(Book(h)), h + [e])
      ensures r == Ok ==> Bytes(Book(h).free) + e.length == old(Bytes(Book(h).free))
    {
      hide Sane, Balanced, Filed, M.LevelOk, M.Blocks, M.BlocksOk, Bytes, Packed, Unpacked, Extents, M.Flat, M.RemoveAt;
      hide L.LeafOf, L.LeafIndex, L.LeafPosition, L.LeafEnts, L.Target, L.Holds, L.TakeIndex, N.Released,
           Nodes.TrimmedTo;
      hide Leaves.Spare, Leaves.LeafTaken;
      e := V.Extent(0, 0);
      var st, value;
      ghost var at;
      st, value, at := fbt.Remove(length, false);
      if st != M.OK { return NotFound, e; }
      if |fbt.pool| > highMark { return Reentrant, e; }
      e := Unpacked(value);
      TakenFromTree(old(fbt.Contents()), at, fbt.Owned(), h, clusterSize, deviceSize);
      r := Ok;
    }

    /** Files a free extent. */
    method GiveBack(e: Extent, ghost h: seq<Extent>) returns (r: Result)
      requires Sound(h + [e]) && e.length < V.WORD
      modifies fbt
      ensures r == if old(N.Taken(fbt.caps, fbt.Now(), e.length)) <= |old(fbt.pool)| then Ok else NoSpace
      ensures if r == Ok then PutIn(fbt.caps, old(fbt.Now()), fbt.Now(), Filing(e))
              else Nodes.StuntedTo(fbt.caps, old(fbt.Now()), 0, old(L.Target(fbt.Now(), e.length)), fbt.Now())
      ensures r == Ok ==> Sound(h) && fbt.levels != [] && Since(old(Book(h + [e])), h)
      ensures r == Ok ==> Bytes(Book(h).free) == old(Bytes(Book(h).free)) + e.length
    {
      hide Sane, Balanced, Filed, M.LevelOk, M.Blocks, M.BlocksOk, Bytes, Packed, Unpacked, Extents, M.Flat, M.InsertAt;
      hide L.LeafOf, L.LeafIndex, L.LeafPosition, L.LeafEnts, L.Target, N.Taken, Leaves.LeafPlaced,
           Nodes.GrownTo, Nodes.StuntedTo;
      var st;
      ghost var at;
      st, at := fbt.Insert(e.length, Packed(e));
      if st != M.OK { return NoSpace; }
      GivenToTree(old(fbt.Contents()), at, e, fbt.Owned(), h, clusterSize, deviceSize);
      r := Ok;
    }

    // ---- The spare clusters ----

    /** The first cluster of an extent in use becomes the topmost spare. */
    method PushSpare(e: Extent, ghost h: seq<Extent>) returns (rest: Extent)
      requires Sound(h + [e]) && e.length >= clusterSize && |fbt.pool| < highMark
      modifies fbt
      ensures rest == V.Extent(e.offset + clusterSize, e.length - clusterSize)
      ensures fbt.Now() == old(fbt.Now()).(pool := old(fbt.pool) + [e.offset])
      ensures Sound(h + [rest]) && Since(old(Book(h + [e])), h + [rest])
      ensures Book(h).free == old(Book(h).free)
    {
      hide Sane, Balanced, Filed, M.LevelOk, M.Blocks, M.BlocksOk, Hits, Clusters, Bytes;
      rest := V.Extent(e.offset + clusterSize, e.length - clusterSize);
      PushBalanced(Book(h + [e]), e, h, clusterSize, deviceSize);
      PushReady(fbt.caps, fbt.Now(), e.offset);
      fbt.pool := fbt.pool + [e.offset];
    }

    /**
     Fills the spares up to the low mark from the tree, in `rounds`. The loop may go round any number of times without
     moving a cluster; it is followed for `patience` such rounds.
     */
    method Refill(patience: nat, ghost h: seq<Extent>) returns (r: Result, ghost rounds: seq<Round>, ghost last: Round)
      requires Sound(h)
      modifies fbt
      ensures r != WontFit && r != Misaligned
      ensures Ended(Limits(), fbt.caps, old(fbt.Now()), patience, rounds, last, r, fbt.Now())
      ensures r != NoSpace && r != Reentrant ==> Sound(h) && fbt.levels != [] && Since(old(Book(h)), h)
      ensures old(|fbt.levels|) == 1 ==> (r == Ok || r == NotFound) && fbt.levels == old(fbt.levels)
    {
      hide Sane, Balanced, Filed, Bytes, InOrder, CanTake, N.Released, Moved, Refilled, Short, Rounds, Idle, M.Flat;
      hide Stocked, Extents, T.BmTree.Contents, T.BmTree.Owned, T.BmTree.Valid;
      InOrderRooted(fbt, clusterSize, deviceSize, lowMark, highMark, h);
      BalancedItself(Book(h), clusterSize);
      ghost var m, t := Limits(), fbt.Now();
      rounds, last := [], Round(t, 0, V.Extent(0, 0), t);
      NoRounds(m, fbt.caps, t);
      var idle := 0;
      while |fbt.pool| < lowMark && idle <= patience
        invariant Sound(h) && fbt.levels != [] && Since(old(Book(h)), h)
        invariant Rounds(m, fbt.caps, t, rounds) && At(t, rounds) == fbt.Now() && Idle(rounds) == idle <= patience + 1
        invariant rounds != [] ==> Idle(rounds[..|rounds| - 1]) <= patience
        invariant old(|fbt.levels|) == 1 ==> fbt.levels == old(fbt.levels) && idle == 0
        decreases Bytes(Book(h).free), patience + 1 - idle
      {
        var moved;
        r, moved, last := RefillOnce(h, old(Book(h)));
        if r != Ok { return; }
        OneMoreRound(m, fbt.caps, t, rounds, last);
        rounds := rounds + [last];
        if moved == 0 { idle := idle + 1; }
      }
      r := if |fbt.pool| >= lowMark then Ok else Stalled;
    }

    /** One round of refilling: `moved` clusters of a free extent become spares, the rest is filed again. */
    method RefillOnce(ghost h: seq<Extent>, ghost l: Ledger) returns (r: Result, moved: nat, ghost round: Round)
      requires Sound(h) && fbt.levels != [] && Since(l, h) && |fbt.pool| < lowMark
      modifies fbt
      ensures r == Ok || r == NotFound || r == NoSpace || r == Reentrant
      ensures r == NotFound <==> !old(CanTake(fbt.Now(), clusterSize))
      ensures r == NotFound ==> fbt.Now() == old(fbt.Now())
      ensures r == Reentrant <==>
        old(CanTake(fbt.Now(), clusterSize))
        && |old(fbt.pool)| + old(N.Released(fbt.caps, fbt.Now(), clusterSize)) > highMark
      ensures r == Ok ==> Refilled(Limits(), fbt.caps, old(fbt.Now()), round) && round.after == fbt.Now()
      ensures r == Ok || r == NoSpace ==> round.moved == moved
      ensures r == NoSpace ==> Short(Limits(), fbt.caps, old(fbt.Now()), round)
      ensures r == Ok || r == NoSpace ==>
        (moved == 0 <==> |old(fbt.pool)| + old(N.Released(fbt.caps, fbt.Now(), clusterSize)) >= lowMark)
      ensures r == Ok && |old(fbt.pool)| + |old(fbt.levels)| < lowMark ==> moved > 0
      ensures r == Ok || r == NotFound ==> Sound(h) && fbt.levels != [] && Since(l, h)
      ensures r == Ok ==> Bytes(Book(h).free) + moved * clusterSize == old(Bytes(Book(h).free))
      ensures r == Ok ==>
        if moved == 0 then Bytes(Book(h).free) == old(Bytes(Book(h).free))
        else Bytes(Book(h).free) < old(Bytes(Book(h).free))
      ensures old(|fbt.levels|) == 1 ==>
        && (r == Ok || r == NotFound) && fbt.levels == old(fbt.levels)
        && (r == Ok ==> moved > 0)
    {
      hide Sane, Balanced, Filed, Bytes, InOrder, CanTake, TookOut, PutIn, TakenEntry, N.Released, N.Taken, Packed;
      hide Unpacked, M.Ready, M.Flat, Extents, Cut, Moves;
      hide T.BmTree.Contents, T.BmTree.Owned, T.BmTree.Valid;
      InOrderRooted(fbt, clusterSize, deviceSize, lowMark, highMark, h);
      InOrderReady(fbt, clusterSize, deviceSize, lowMark, highMark, h);
      ghost var t := fbt.Now();
      round := Round(t, 0, V.Extent(0, 0), t);
      N.CountBounds(fbt.caps, t, clusterSize);
      moved := 0;
      var replacement;
      r, replacement := TakeFree(clusterSize, h);
      OneLeafTakes(fbt.caps, t, fbt.Now(), clusterSize, r == Ok);
      if r != Ok { return; }
      ghost var mid := fbt.Now();
      SinceTwice(l, old(Book(h)), h + [replacement]);
      replacement, moved := MoveClusters(replacement, h, l);
      ghost var before, t1 := Book(h + [replacement]), fbt.Now();
      TookPool(fbt.caps, t, mid, clusterSize);
      round := Round(mid, moved, replacement, t1);
      IdleRound(Limits(), fbt.caps, t, round);
      InOrderReady(fbt, clusterSize, deviceSize, lowMark, highMark, h + [replacement]);
      if moved > 0 { X.AtLeast(moved, clusterSize); }
      if replacement.length > 0 {
        r := GiveBack(replacement, h);
        StockedTakes(Limits(), fbt.caps, t, round, replacement.length);
        OneLeafGives(fbt.caps, t1, fbt.Now(), Filing(replacement), r == Ok);
        round := round.(after := fbt.Now());
        if r != Ok { return; }
        PutReady(fbt.caps, t1, fbt.Now(), Filing(replacement));
        SinceTwice(l, before, h);
      } else {
        DropNothing(l, h, replacement);
      }
    }

    /** Clusters of an extent become spares, until it is too short or the low mark is reached. */
    method MoveClusters(e: Extent, ghost h: seq<Extent>, ghost l: Ledger) returns (rest: Extent, moved: nat)
      requires Sound(h + [e]) && fbt.levels != [] && Since(l, h + [e]) && e.length < V.WORD
      modifies fbt
      ensures Sound(h + [rest]) && fbt.levels != [] && Since(l, h + [rest]) && rest.length < V.WORD
      ensures rest.length + moved * clusterSize == e.length && Book(h).free == old(Book(h).free)
      ensures rest.length < clusterSize || |fbt.pool| >= lowMark
      ensures |fbt.pool| == |old(fbt.pool)| + moved && (moved > 0 ==> |fbt.pool| <= lowMark)
      ensures Moves(Limits(), |old(fbt.pool)|, e, moved, rest)
      ensures fbt.Now() == old(fbt.Now()).(pool := old(fbt.pool) + Cut(e.offset, clusterSize, moved))
      ensures moved == 0 ==> rest == e && fbt.Now() == old(fbt.Now())
    {
      hide Sane, Balanced, Filed, Bytes, InOrder, Cut, Extents, M.Flat;
      hide T.BmTree.Contents, T.BmTree.Owned, T.BmTree.Valid;
      InOrderRooted(fbt, clusterSize, deviceSize, lowMark, highMark, h + [e]);
      rest, moved := e, 0;
      CutNothing(e.offset, clusterSize, fbt.pool);
      while rest.length >= clusterSize && |fbt.pool| < lowMark
        invariant Sound(h + [rest]) && fbt.levels != [] && Since(l, h + [rest]) && rest.length < V.WORD
        invariant rest.length + moved * clusterSize == e.length && Book(h).free == old(Book(h).free)
        invariant |fbt.pool| == |old(fbt.pool)| + moved && (moved > 0 ==> |fbt.pool| <= lowMark)
        invariant rest.offset == e.offset + moved * clusterSize
        invariant fbt.Now() == old(fbt.Now()).(pool := old(fbt.pool) + Cut(e.offset, clusterSize, moved))
        invariant moved == 0 ==> rest == e && fbt.Now() == old(fbt.Now())
        decreases rest.length
      {
        ghost var before := Book(h + [rest]);
        rest := PushSpare(rest, h);
        SinceTwice(l, before, h + [rest]);
        X.OneMore(moved, clusterSize);
        CutMore(e.offset, clusterSize, moved);
        moved := moved + 1;
      }
    }

    // ---- Allocating and freeing ----

    /**
     Hands out the front of a free extent that is long enough, and leaves at least the low mark of spares. Refilling is
     followed as far as `patience` goes.
     */
    method AllocateBlocks(length: nat, patience: nat) returns (r: Result, target: Extent, ghost course: Course)
      requires Valid()
      modifies this, fbt
      ensures r == Ok ==> |fbt.pool| >= lowMark
      ensures r == NotFound ==> |fbt.pool| < lowMark && !CanTake(fbt.Now(), clusterSize)
      ensures r == Ok || r == NotFound || r == Stalled ==> target.length == length && held == old(held) + [target]
      ensures r == Ok || r == NotFound || r == Stalled ==> Valid() && fbt.levels != [] && Since(old(Book(held)), held)
      ensures r == Misaligned || r == WontFit ==> Valid() && fbt.Now() == old(fbt.Now()) && held == old(held)
      ensures r == Misaligned <==> length != V.BLOCK_SIZE && length % clusterSize != 0
      ensures r == WontFit <==> r != Misaligned && !old(CanTake(fbt.Now(), length))
      ensures r != Misaligned && r != WontFit && old(|fbt.levels|) == 1 ==> r == Ok || r == NotFound
      ensures Answered(Limits(), fbt.caps, old(fbt.Now()), length, patience, r, target, course, fbt.Now())
    {
      hide Sane, Balanced, Filed, Bytes, InOrder, CanTake, TookOut, PutIn, TakenEntry, N.Released, N.Taken;
      hide Rounds, Idle, Packed, Unpacked, Handed, NoRoom, RootRoom, Extents, M.Ready, M.Flat, Moved, Short, Refilled;
      hide T.BmTree.Contents, T.BmTree.Owned, T.BmTree.Valid;
      InOrderRooted(fbt, clusterSize, deviceSize, lowMark, highMark, held);
      InOrderReady(fbt, clusterSize, deviceSize, lowMark, highMark, held);
      ghost var l, t := Book(held), fbt.Now();
      target, course := V.Extent(0, 0), Course(t, t, [], Round(t, 0, V.Extent(0, 0), t));
      if length != V.BLOCK_SIZE && length % clusterSize != 0 { return Misaligned, target, course; }
      var result;
      r, result := TakeFree(length, held);
      OneLeafTakes(fbt.caps, t, fbt.Now(), length, r == Ok);
      if r == NotFound { return WontFit, target, course; }
      if r != Ok { return; }
      course := course.(mid := fbt.Now());
      InOrderRooted(fbt, clusterSize, deviceSize, lowMark, highMark, held + [result]);
      target := V.Extent(result.offset, length);
      if result.length > length {
        var residual := V.Extent(result.offset + length, result.length - length);
        SplitHeld(l, held, result, length);
        InOrderReady(fbt, clusterSize, deviceSize, lowMark, highMark, held + [result]);
        ghost var split, t1 := Book(held + [target] + [residual]), fbt.Now();
        assert Balanced(l, split, clusterSize);
        r := GiveBack(residual, held + [target]);
        OneLeafGives(fbt.caps, t1, fbt.Now(), Filing(residual), r == Ok);
        HandedFront(fbt.caps, t, course.mid, fbt.Now(), length, target, residual);
        if r != Ok { return; }
        SinceTwice(l, split, held + [target]);
      } else {
        HandedWhole(fbt.caps, t, course.mid, length, target);
      }
      held := held + [target];
      ghost var now := Book(held);
      assert Balanced(l, now, clusterSize);
      ghost var start, rounds, last := fbt.Now(), [], course.last;
      r, rounds, last := Refill(patience, held);
      course := course.(start := start, rounds := rounds, last := last);
      if r != NoSpace && r != Reentrant { SinceTwice(l, now, held); }
    }

    lemma SplitHeld(l: Ledger, h: seq<Extent>, e: Extent, n: nat)
      requires Sound(h + [e]) && fbt.levels != [] && Since(l, h + [e]) && n <= e.length
      ensures Sound(h + [V.Extent(e.offset, n)] + [V.Extent(e.offset + n, e.length - n)])
      ensures Since(l, h + [V.Extent(e.offset, n)] + [V.Extent(e.offset + n, e.length - n)])
    {
      var h' := h + [V.Extent(e.offset, n)] + [V.Extent(e.offset + n, e.length - n)];
      HeldSplit(Book(h + [e]), e, n, h, clusterSize);
      BalancedSane(Book(h + [e]), Book(h'), clusterSize, deviceSize);
      BalancedTwice(l, Book(h + [e]), Book(h'), clusterSize);
    }

    /** Hands out a spare cluster for a block of a tree. */
    method AllocateTreeBlocks() returns (r: Result, a: M.Address)
      requires Valid()
      modifies this, fbt
      ensures r == if old(fbt.pool) == [] then NoSpace else Ok
      ensures r == Ok ==> a >= 0 && held == old(held) + [V.Extent(a, clusterSize)]
      ensures r == Ok ==> a == old(fbt.pool)[|old(fbt.pool)| - 1]
      ensures r == Ok ==> fbt.Now() == old(fbt.Now()).(pool := old(fbt.pool)[..|old(fbt.pool)| - 1])
      ensures Valid() && Since(old(Book(held)), held)
    {
      hide Sane, Balanced, Filed, Bytes, M.LevelOk, M.Blocks, M.BlocksOk, Hits, Clusters;
      ghost var l := Book(held);
      BalancedItself(l, clusterSize);
      if fbt.pool == [] { return NoSpace, 0; }
      var n := |fbt.pool| - 1;
      a := fbt.pool[n];
      assert fbt.pool == fbt.pool[..n] + [a];
      PopReady(fbt.caps, fbt.Now(), a);
      SpareIsPlace(l, a, clusterSize, deviceSize);
      fbt.pool := fbt.pool[..n];
      held := held + [V.Extent(a, clusterSize)];
      SpareToHeld(l, a, fbt.Owned(), clusterSize);
      BalancedSane(l, Book(held), clusterSize, deviceSize);
      r := Ok;
    }

    /** Takes back an extent that was handed out. */
    method FreeBlocks(e: Extent, ghost i: nat) returns (r: Result)
      requires Valid() && i < |held| && held[i] == e
      modifies this, fbt
      ensures r == if old(CannotFile(Limits(), fbt.caps, fbt.Now(), e)) then NoSpace else Ok
      ensures r == Ok ==> Valid() && held == M.RemoveAt(old(held), i) && Since(old(Book(held)), held)
      ensures r == Ok ==> Freed(Limits(), fbt.caps, old(fbt.Now()), e, fbt.Now())
    {
      hide Sane, Balanced, Filed, Bytes, InOrder, PutIn, Packed, N.Taken, Nodes.StuntedTo, L.Target;
      InOrderRooted(fbt, clusterSize, deviceSize, lowMark, highMark, held);
      ghost var l, h := Book(held), M.RemoveAt(held, i);
      LastHeld(held, i);
      held := h;
      if |fbt.pool| < highMark && e.length >= clusterSize {
        ghost var l1 := Book(h + [e]);
        N.PoolTakes(fbt.caps, fbt.Now(), fbt.pool + [e.offset], e.length - clusterSize);
        var rest := PushSpare(e, h);
        SinceTwice(l, l1, h + [rest]);
        if e.length > clusterSize {
          ghost var l2 := Book(h + [rest]);
          r := GiveBack(rest, h);
          if r == Ok { SinceTwice(l, l2, h); }
          return;
        }
        DropNothing(l, h, rest);
        return Ok;
      }
      ghost var l1 := Book(h + [e]);
      r := GiveBack(e, h);
      if r == Ok { SinceTwice(l, l1, h); }
    }

    /** The order of the extents in use does not matter. */
    lemma LastHeld(h: seq<Extent>, i: nat)
      requires Sound(h) && fbt.levels != [] && i < |h|
      ensures h[i].length < V.WORD
      ensures Sound(M.RemoveAt(h, i) + [h[i]]) && Since(Book(h), M.RemoveAt(h, i) + [h[i]])
    {
      var h' := M.RemoveAt(h, i) + [h[i]];
      HeldLast(Book(h), i, clusterSize);
      BalancedSane(Book(h), Book(h'), clusterSize, deviceSize);
      if h[i].length > 0 {
        HeldIsNotOwned(Book(h'), h[i], M.RemoveAt(h, i), clusterSize, deviceSize);
      }
    }

    /** Reserved, available and tree-owned bytes, which together with the extents in use make up the whole. */
    method CountFreeBlocks() returns (standby: nat, available: nat, extents: nat, inFbt: nat)
      requires Valid()
      ensures standby == |fbt.pool| * clusterSize && available == Bytes(Book(held).free)
      ensures extents == |Book(held).free| && inFbt == clusterSize * |M.Bag(fbt.levels)|
      ensures standby + available + inFbt + Bytes(held) == Total(Book(held), clusterSize)
    {
      hide Sane, Filed, M.LevelOk, M.BlocksOk, M.Bag, Hits, Clusters, Bytes, W.Reverse, P.Consumed, P.Patient;
      standby := |fbt.pool| * clusterSize;
      inFbt := fbt.CountUsedSpace(clusterSize);
      extents := fbt.CountValues();
      var all := (h: seq<M.Entry>, e: M.Entry) => P.Go;
      GoesOn(all);
      var seen, end := fbt.Walk(all);
      available := 0;
      P.HandedAll(all, W.Reverse(fbt.Contents()), [], seen, end);
      NoBytes();
      assert seen[..0] == [];
      var i := 0;
      while i < |seen|
        invariant i <= |seen| && available == Bytes(Extents(seen[..i]))
      {
        BytesStep(seen, i);
        available := available + Unpacked(seen[i].rec).length;
        i := i + 1;
      }
      assert seen[..i] == seen;
      BytesReverse(fbt.Contents());
      Distribute(clusterSize, |fbt.pool|, |M.Bag(fbt.levels)|);
    }
  }
}
