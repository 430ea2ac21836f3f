/** When refilling ends and how: on the first tree alone where that tells, and from the rounds otherwise. */
module RefillEnds {
  import opened BmTreeModel
  import opened BmTreeLocate
  import opened BmTreeCounts
  import opened BmTreeLeaves
  import opened BmTreeSteps
  import opened FreeSpace
  import opened RefillRounds
  import D = BmTreeDescent
  import H = BmTreeShape
  import T = BmTreeTwoLeaves
  import V = Volumes
  import X = Multiples

  lemma {:induction false} RoundAt(m: Marks, c: Caps, t: Tree, rs: seq<Round>, i: nat)
    requires Rounds(m, c, t, rs) && i < |rs|
    ensures |At(t, rs[..i]).pool| < m.low && Refilled(m, c, At(t, rs[..i]), rs[i])
    decreases |rs|
  {
    hide Refilled, At;
    var n := |rs| - 1;
    if i < n {
      RoundAt(m, c, t, rs[..n], i);
      assert rs[..n][..i] == rs[..i];
    }
  }

  // ---- Ending in one round, at any height ----

  /** How many clusters the tree needs beside what it releases itself. */
  ghost function Need(m: Marks, c: Caps, t: Tree): int {
    m.low - (|t.pool| + Released(c, t, m.size))
  }

  /** The extent that refilling takes first has all clusters that are needed. */
  ghost predicate Suffices(m: Marks, c: Caps, t: Tree) {
    && CanTake(t, m.size) && |t.pool| < m.low && |t.pool| + Released(c, t, m.size) <= m.high
    && Need(m, c, t) > 0 && Need(m, c, t) * m.size <= TakenEntry(t, m.size).key
  }

  /** What is left of it is filed without a block, whatever the removal made of the tree. */
  ghost predicate FiledFreely(m: Marks, c: Caps, t: Tree) {
    var rest := TakenEntry(t, m.size).key - Need(m, c, t) * m.size;
    rest == 0 || forall mid: Tree :: TookOut(c, t, mid, m.size) ==> Taken(c, mid, rest) == 0
  }

  lemma MovesNeed(m: Marks, spares: nat, need: int, size: int, e: V.Extent, moved: nat, rest: V.Extent)
    requires Moves(m, spares, e, moved, rest) && need == m.low - spares > 0 && need * m.size <= e.length
    requires size == need * m.size
    ensures moved == need && rest.length == e.length - size
  {
    if moved < need {
      X.AtLeast(need - moved, m.size);
      Difference(need, moved, m.size);
    }
  }

  lemma Difference(a: int, b: int, size: nat)
    ensures (a - b) * size == a * size - b * size
  {}

  /** What the first round does where its extent suffices. */
  lemma FirstRound(m: Marks, c: Caps, t: Tree, r: Round)
    requires Suffices(m, c, t) && FiledFreely(m, c, t) && Moved(m, c, t, r)
    ensures r.moved == Need(m, c, t) && !Short(m, c, t, r)
    ensures Refilled(m, c, t, r) ==> |r.after.pool| == m.low
  {
    hide CanTake, TookOut, TakenEntry, Released, Taken, PutIn, Moves;
    TookPool(c, t, r.mid, m.size);
    MovesNeed(m, |r.mid.pool|, Need(m, c, t), Need(m, c, t) * m.size, TakenExtent(t, m.size), r.moved, r.rest);
    if Refilled(m, c, t, r) { RoundPool(m, c, t, r); }
  }

  /** Then refilling ends well with its first round, at the low mark. */
  lemma EndsInOneRound(m: Marks, c: Caps, t: Tree, patience: nat, rs: seq<Round>, last: Round, r: Result, now: Tree)
    requires Ended(m, c, t, patience, rs, last, r, now) && Suffices(m, c, t) && FiledFreely(m, c, t)
    ensures r == Ok && |rs| == 1 && |now.pool| == m.low
  {
    hide CanTake, Released, FiledFreely, Moved, Refilled, Short, Rounds, Idle, At;
    if rs == [] {
      NoRounds(m, c, t);
      FirstRoundGoesWell(m, c, t, last);
    } else {
      RoundAt(m, c, t, rs, 0);
      NoRounds(m, c, t);
      FirstRoundGoesWell(m, c, t, rs[0]);
      AfterFirst(t, rs);
      if |rs| > 1 { RoundAt(m, c, t, rs, 1); }
    }
  }

  lemma AfterFirst(t: Tree, rs: seq<Round>)
    requires rs != []
    ensures rs[..0] == [] && At(t, rs[..1]) == rs[0].after && (|rs| == 1 ==> At(t, rs) == rs[0].after)
  {}

  lemma FirstRoundGoesWell(m: Marks, c: Caps, t: Tree, r: Round)
    requires Suffices(m, c, t) && FiledFreely(m, c, t)
    ensures !Short(m, c, t, r) && (Refilled(m, c, t, r) ==> |r.after.pool| == m.low)
  {
    hide Suffices, FiledFreely, Moved;
    if Short(m, c, t, r) || Refilled(m, c, t, r) { FirstRound(m, c, t, r); }
  }

  // ---- The same, read off the leaves of the first tree ----

  /**
   The leaf that refilling turns to can spare an entry, and what is left of the extent goes back into a leaf with room,
   that one included.
   */
  ghost predicate LeavesFit(m: Marks, c: Caps, t: Tree)
    requires t.levels != []
  {
    var rest := TakenEntry(t, m.size).key - Need(m, c, t) * m.size;
    && Spare(c, t, Target(t, m.size))
    && (rest == 0 || Target(t, rest) == Target(t, m.size) || |LeafEnts(t, Target(t, rest))| < Cap(c, 0))
  }

  lemma LeavesFile(m: Marks, c: Caps, t: Tree)
    requires Ready(c, t, 0) && LeavesFit(m, c, t)
    ensures FiledFreely(m, c, t)
  {
    hide Ready, Spare, TookOut, TakenEntry, Taken, Need, Target;
    var rest := TakenEntry(t, m.size).key - Need(m, c, t) * m.size;
    forall mid: Tree | rest != 0 && TookOut(c, t, mid, m.size) ensures Taken(c, mid, rest) == 0 {
      SparedLeaf(c, t, mid, m.size, rest);
    }
  }

  /** A leaf that lost an entry has room, and any other has what it had. */
  lemma SparedLeaf(c: Caps, t: Tree, mid: Tree, key: int, rest: int)
    requires TookOut(c, t, mid, key) && Spare(c, t, Target(t, key))
    requires Target(t, rest) == Target(t, key) || |LeafEnts(t, Target(t, rest))| < Cap(c, 0)
    ensures Taken(c, mid, rest) == 0
  {
    hide Blocks, BlocksOk, LevelOk, LeafOf, LeafIndex, LeafPosition, Flat, Released, Taken;
    var top := |t.levels| - 1;
    H.TopView(c, t);
    D.SameWay(c, t, mid, top, 0, rest);
    D.ViewOfTarget(c, t, Top(t.root), top, 0, rest);
    var x := Target(t, rest);
    H.NodeFacts(c, t, 0, x);
    assert |LeafEnts(mid, x)| < Cap(c, 0);
    RoomTakes(c, mid, rest);
  }

  /** Nothing is taken for a leaf with room. */
  lemma RoomTakes(c: Caps, t: Tree, key: int)
    requires Ready(c, t, 0) && Target(t, key) < |t.levels[0]| && |LeafEnts(t, Target(t, key))| < Cap(c, 0)
    ensures Taken(c, t, key) == 0
  {
    hide Blocks, BlocksOk, LevelOk, LeafOf;
    H.TopView(c, t);
    D.ViewOfTarget(c, t, Top(t.root), |t.levels| - 1, 0, key);
  }

  /** A condition on the first tree under which refilling ends well, whatever its height. */
  lemma LeavesEndWell(m: Marks, c: Caps, t: Tree, patience: nat, rs: seq<Round>, last: Round, r: Result, now: Tree)
    requires Ready(c, t, 0) && Suffices(m, c, t) && LeavesFit(m, c, t) && Ended(m, c, t, patience, rs, last, r, now)
    ensures r == Ok && |rs| == 1 && |now.pool| == m.low
  {
    hide Ready, Suffices, LeavesFit, FiledFreely, Ended;
    LeavesFile(m, c, t);
    EndsInOneRound(m, c, t, patience, rs, last, r, now);
  }

  // ---- Not ending ----

  /** For `n` rounds refilling moves nothing and does not get above the low mark, whatever blocks the tree may take. */
  ghost predicate Idles(m: Marks, c: Caps, t: Tree, n: nat)
    decreases n
  {
    n == 0 || (
      && CanTake(t, m.size) && m.low <= |t.pool| + Released(c, t, m.size) <= m.high
      && forall r: Round :: Moved(m, c, t, r) ==>
           !Short(m, c, t, r) && (Refilled(m, c, t, r) ==> |r.after.pool| < m.low && Idles(m, c, r.after, n - 1)))
  }

  lemma {:induction false} IdlesOn(m: Marks, c: Caps, t: Tree, rs: seq<Round>, n: nat)
    requires Rounds(m, c, t, rs) && Idles(m, c, t, n) && |rs| <= n && |t.pool| < m.low && m.size > 0
    ensures Idle(rs) == |rs| && |At(t, rs).pool| < m.low && Idles(m, c, At(t, rs), n - |rs|)
    decreases |rs|
  {
    hide Refilled, Idles;
    if rs != [] {
      var k := |rs| - 1;
      IdlesOn(m, c, t, rs[..k], n);
      IdlesStep(m, c, At(t, rs[..k]), rs[k], n - k);
    }
  }

  lemma IdlesStep(m: Marks, c: Caps, t: Tree, r: Round, n: nat)
    requires Idles(m, c, t, n) && n > 0 && Refilled(m, c, t, r) && m.size > 0
    ensures r.moved == 0 && |r.after.pool| < m.low && Idles(m, c, r.after, n - 1)
  {
    hide Moved, Short, CanTake, Released, PutIn, Stocked;
    assert Moved(m, c, t, r);
    IdleRound(m, c, t, r);
  }

  /** Where rounds idle on, no patience is enough. */
  lemma IdlesStalled(m: Marks, c: Caps, t: Tree, patience: nat, rs: seq<Round>, last: Round, r: Result, now: Tree)
    requires Ended(m, c, t, patience, rs, last, r, now) && Idles(m, c, t, patience + 1)
    requires |t.pool| < m.low && m.size > 0
    ensures r == Stalled
  {
    hide Moved, Short, Refilled, CanTake, Released;
    if |rs| <= patience + 1 {
      IdlesOn(m, c, t, rs, patience + 1);
      if |rs| <= patience { NotShort(m, c, At(t, rs), patience + 1 - |rs|, last); }
    } else {
      TooMany(m, c, t, rs, patience + 1);
    }
  }

  lemma NotShort(m: Marks, c: Caps, t: Tree, n: nat, r: Round)
    requires Idles(m, c, t, n) && n > 0
    ensures CanTake(t, m.size) && |t.pool| + Released(c, t, m.size) <= m.high && !Short(m, c, t, r)
  {
    hide Moved, CanTake, Released, Refilled;
    assert Short(m, c, t, r) ==> Moved(m, c, t, r);
  }

  /** More rounds than it idles for have more idle ones before the last than there is patience for. */
  lemma TooMany(m: Marks, c: Caps, t: Tree, rs: seq<Round>, n: nat)
    requires Rounds(m, c, t, rs) && Idles(m, c, t, n) && |rs| > n && |t.pool| < m.low && m.size > 0
    ensures Idle(rs[..|rs| - 1]) >= n
  {
    hide Refilled, Idles;
    var k := |rs| - 1;
    Prefix(m, c, t, rs, n);
    IdlesOn(m, c, t, rs[..n], n);
    IdleGrows(rs[..k], n);
    assert rs[..k][..n] == rs[..n];
  }

  lemma {:induction false} Prefix(m: Marks, c: Caps, t: Tree, rs: seq<Round>, n: nat)
    requires Rounds(m, c, t, rs) && n <= |rs|
    ensures Rounds(m, c, t, rs[..n])
    decreases |rs|
  {
    hide Refilled;
    if n < |rs| {
      Prefix(m, c, t, rs[..|rs| - 1], n);
      assert rs[..|rs| - 1][..n] == rs[..n];
    } else {
      assert rs[..n] == rs;
    }
  }

  lemma {:induction false} IdleGrows(rs: seq<Round>, n: nat)
    requires n <= |rs|
    ensures Idle(rs[..n]) <= Idle(rs)
    decreases |rs|
  {
    if n < |rs| {
      IdleGrows(rs[..|rs| - 1], n);
      assert rs[..|rs| - 1][..n] == rs[..n];
    } else {
      assert rs[..n] == rs;
    }
  }

  // ---- Rounds that move something ----

  /** The whole clusters in the extents of a row, by their lengths. */
  ghost function Whole(es: seq<Entry>, size: nat): nat
    requires size > 0
  {
    if es == [] then 0 else Whole(es[..|es| - 1], size) + ClustersIn(es[|es| - 1].key, size)
  }

  function ClustersIn(length: int, size: nat): nat
    requires size > 0
  {
    if length < 0 then 0 else length / size
  }

  lemma {:induction false} WholeBoth(a: seq<Entry>, b: seq<Entry>, size: nat)
    requires size > 0
    ensures Whole(a + b, size) == Whole(a, size) + Whole(b, size)
  {
    hide ClustersIn;
    if b == [] {
      assert a + b == a;
    } else {
      WholeBoth(a, b[..|b| - 1], size);
      assert (a + b)[..|a + b| - 1] == a + b[..|b| - 1];
    }
  }

  lemma WholeOne(e: Entry, size: nat)
    requires size > 0
    ensures Whole([e], size) == ClustersIn(e.key, size)
  {
    assert [e][..0] == [];
  }

  lemma WholeInsert(es: seq<Entry>, i: nat, e: Entry, size: nat)
    requires i <= |es| && size > 0
    ensures Whole(InsertAt(es, i, e), size) == Whole(es, size) + ClustersIn(e.key, size)
  {
    hide Whole, ClustersIn;
    assert es == es[..i] + es[i..] && InsertAt(es, i, e) == es[..i] + [e] + es[i..];
    WholeBoth(es[..i], es[i..], size);
    WholeBoth(es[..i] + [e], es[i..], size);
    WholeBoth(es[..i], [e], size);
    WholeOne(e, size);
  }

  lemma WholeRemove(es: seq<Entry>, i: nat, size: nat)
    requires i < |es| && size > 0
    ensures Whole(es, size) == Whole(RemoveAt(es, i), size) + ClustersIn(es[i].key, size)
  {
    hide Whole, ClustersIn;
    assert InsertAt(RemoveAt(es, i), i, es[i]) == es;
    WholeInsert(RemoveAt(es, i), i, es[i], size);
  }

  lemma {:induction false} WholeNone(es: seq<Entry>, size: nat)
    requires size > 0 && forall i :: 0 <= i < |es| ==> es[i].key < size
    ensures Whole(es, size) == 0
  {
    if es != [] {
      WholeNone(es[..|es| - 1], size);
    }
  }

  /** Moving clusters off an extent leaves it with so many fewer. */
  lemma ClustersLeft(length: nat, moved: nat, rest: nat, size: nat)
    requires size > 0 && length == rest + moved * size
    ensures ClustersIn(length, size) == moved + ClustersIn(rest, size)
  {
    X.RestOfDivision(length, size, moved + rest / size, rest % size);
  }

  lemma NoClusters(size: nat)
    requires size > 0
    ensures ClustersIn(0, size) == 0
  {}

  lemma MovesRest(m: Marks, spares: nat, e: V.Extent, moved: nat, rest: V.Extent)
    requires Moves(m, spares, e, moved, rest) && m.size > 0
    ensures ClustersIn(e.length, m.size) == moved + ClustersIn(rest.length, m.size)
  {
    ClustersLeft(e.length, moved, rest.length, m.size);
  }

  /** Whatever the height, a round takes as many whole clusters out of the free extents as it moves. */
  lemma RoundWhole(m: Marks, c: Caps, t: Tree, r: Round)
    requires Refilled(m, c, t, r) && m.size > 0
    ensures Whole(Row(t, 0), m.size) == Whole(Row(r.after, 0), m.size) + r.moved
  {
    hide Blocks, BlocksOk, LevelOk, Flat, LeafIndex, LeafPosition, Whole, ClustersIn, Taken, Released;
    hide Moves, Cut, Packed, CanTake, Target, Spare, LeafTaken, Unpacked, LeafPlaced;
    WholeRemove(Row(t, 0), TakenAt(t, m.size), m.size);
    MovesRest(m, |r.mid.pool|, TakenExtent(t, m.size), r.moved, r.rest);
    var s := Stocked(m, t, r);
    assert Row(s, 0) == Row(r.mid, 0);
    if r.rest.length > 0 {
      WholeInsert(Row(s, 0), PutAt(s, r.rest.length), Filing(r.rest), m.size);
    } else {
      NoClusters(m.size);
    }
  }

  /** Rounds that move something are no more than the whole clusters there are: all others are idle. */
  lemma {:induction false} BusyRounds(m: Marks, c: Caps, t: Tree, rs: seq<Round>)
    requires Rounds(m, c, t, rs) && m.size > 0 && t.levels != []
    ensures At(t, rs).levels != []
    ensures |rs| + Whole(Row(At(t, rs), 0), m.size) <= Idle(rs) + Whole(Row(t, 0), m.size)
    decreases |rs|
  {
    hide Refilled, Whole, Flat;
    if rs != [] {
      var k := |rs| - 1;
      BusyRounds(m, c, t, rs[..k]);
      RoundRooted(m, c, At(t, rs[..k]), rs[k]);
      RoundWhole(m, c, At(t, rs[..k]), rs[k]);
    }
  }

  lemma RoundRooted(m: Marks, c: Caps, t: Tree, r: Round)
    requires Refilled(m, c, t, r)
    ensures t.levels != [] && r.after.levels != []
  {}

  // ---- A tree of one leaf ----

  /** A tree of one leaf, with the spares and the whole clusters of its extents together. */
  ghost predicate OneLeaf(c: Caps, t: Tree, size: nat, total: nat)
    requires size > 0
  {
    Ready(c, t, 0) && |t.levels| == 1 && |t.pool| + Whole(Row(t, 0), size) == total
  }

  /** A round turns clusters of free extents into spares, one for one. */
  lemma OneLeafRound(m: Marks, c: Caps, t: Tree, r: Round, total: nat)
    requires m.size > 0 && OneLeaf(c, t, m.size, total) && Moved(m, c, t, r)
    ensures !Short(m, c, t, r) && (Refilled(m, c, t, r) ==> OneLeaf(c, r.after, m.size, total))
    ensures Released(c, t, m.size) == 0
  {
    hide Blocks, BlocksOk, LevelOk, Flat, LeafIndex, LeafPosition, Whole, ClustersIn, Taken, Released;
    hide Moves, Cut, Packed, CanTake, Target, Spare, LeafTaken, Unpacked, LeafPlaced;
    OneLeafTook(c, t, r.mid, m.size);
    T.FullLeafTakes(c, r.mid, r.rest.length);
    if Refilled(m, c, t, r) {
      RoundWhole(m, c, t, r);
      RoundPool(m, c, t, r);
      if r.rest.length > 0 { OneLeafPut(c, Stocked(m, t, r), r.after, Filing(r.rest)); }
    }
  }

  lemma {:induction false} OneLeafRounds(m: Marks, c: Caps, t: Tree, rs: seq<Round>, total: nat)
    requires m.size > 0 && OneLeaf(c, t, m.size, total) && Rounds(m, c, t, rs)
    ensures OneLeaf(c, At(t, rs), m.size, total) && Idle(rs) == 0
    decreases |rs|
  {
    hide Moved, OneLeaf, Released, Short;
    if rs != [] {
      var k := |rs| - 1;
      OneLeafRounds(m, c, t, rs[..k], total);
      OneLeafRound(m, c, At(t, rs[..k]), rs[k], total);
      IdleRound(m, c, At(t, rs[..k]), rs[k]);
    }
  }

  /**
   From a tree of one leaf refilling always ends: well if the spares and the whole clusters of all free extents together
   reach the low mark, and for want of free extents if not.
   */
  lemma OneLeafEnds(m: Marks, c: Caps, t: Tree, patience: nat, rs: seq<Round>, last: Round, r: Result, now: Tree)
    requires Ended(m, c, t, patience, rs, last, r, now) && Ready(c, t, 0) && |t.levels| == 1
    requires 0 < m.size && m.low <= m.high
    ensures r == if |t.pool| + Whole(Row(t, 0), m.size) >= m.low then Ok else Result.NotFound
  {
    hide Ready, Rounds, Moved, Released, CanTake, Whole, Idle, Short, Flat;
    var total := |t.pool| + Whole(Row(t, 0), m.size);
    OneLeafRounds(m, c, t, rs, total);
    var end := At(t, rs);
    if |end.pool| < m.low {
      OneLeafLast(m, c, end, last, total);
    }
  }

  lemma OneLeafLast(m: Marks, c: Caps, t: Tree, last: Round, total: nat)
    requires m.size > 0 && OneLeaf(c, t, m.size, total)
    ensures !Short(m, c, t, last) && Released(c, t, m.size) == 0
    ensures !CanTake(t, m.size) ==> |t.pool| == total
  {
    hide Blocks, BlocksOk, LevelOk, Flat, LeafIndex, Whole, Moved, Released;
    if Short(m, c, t, last) { OneLeafRound(m, c, t, last, total); }
    T.FullLeafTakes(c, t, m.size);
    T.OneLeafRow(c, t);
    T.OneLeafTarget(c, t, m.size);
    if !CanTake(t, m.size) {
      WholeNone(Row(t, 0), m.size);
    }
  }
}
