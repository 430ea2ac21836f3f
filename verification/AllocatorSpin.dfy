/**
 A file system whose allocator never stops refilling its spare clusters, reached from an empty tree by filing free
 extents, taking one cluster and allocating one extent: for every cluster size, every even capacity of a leaf from four
 on, and every low mark below the high one.
 */
module AllocatorSpin {
  import opened BmTreeModel
  import opened BmTreeCounts
  import opened BmTreeSteps
  import opened BmTreeTwoLeaves
  import opened FreeSpace
  import opened RefillRounds
  import opened RefillEnds
  import A = Allocators
  import L = BmTreeLocate
  import O = BmTreeOrder
  import R = BmTreeRuns
  import Spin = RefillSpin
  import T = BmTreeContainer
  import V = Volumes
  import X = Multiples

  // ---- Extents one behind the other ----

  /** `width` clusters, the first one number `at`. */
  function Piece(at: nat, width: nat, size: nat): V.Extent {
    V.Extent(at * size, width * size)
  }

  /** The free extents of the tree are the clusters from number `first` up to number `next`, each of them once. */
  ghost predicate Laid(es: seq<Entry>, first: nat, next: nat, size: nat) {
    && Filed(es) && first <= next
    && forall b :: Hits(Extents(es), b) == if first * size <= b < next * size then 1 else 0
  }

  lemma LaidNothing(first: nat, size: nat)
    ensures Laid([], first, first, size)
  {
    assert Extents([]) == [];
  }

  lemma LaidMore(es: seq<Entry>, at: nat, first: nat, next: nat, width: nat, size: nat)
    requires Laid(es, first, next, size) && at <= |es| && width * size < V.WORD
    ensures Laid(InsertAt(es, at, Filing(Piece(next, width, size))), first, next + width, size)
  {
    hide Packed, Unpacked, Hits, InsertAt;
    var e := Piece(next, width, size);
    UnpackPacked(e);
    FiledInsert(es, at, Filing(e));
    Spread(first, next, width, size);
    forall b
      ensures Hits(Extents(InsertAt(es, at, Filing(e))), b)
           == if first * size <= b < (next + width) * size then 1 else 0
    {
      HitsInsert(Extents(es), at, e, b);
    }
  }

  lemma Spread(first: nat, next: nat, width: nat, size: nat)
    requires first <= next
    ensures first * size <= next * size <= (next + width) * size == next * size + width * size
  {
    assert next * size == first * size + (next - first) * size;
  }

  // ---- The clusters of the tree ----

  /** The clusters behind the header, as many as are spare at first, hold each of their bytes once. */
  lemma {:induction false} CutHolds(size: nat, n: nat, b: int)
    ensures Clusters(multiset(Cut(size, size, n)), b, size) == if size <= b < size + n * size then 1 else 0
  {
    hide Clusters, Cut;
    if n == 0 {
      NoClusterAt(b, size);
      CutNothing(size, size, []);
    } else {
      var rest, a := Cut(size, size, n - 1), size + (n - 1) * size;
      CutHolds(size, n - 1, b);
      CutMore(size, size, n - 1);
      OnePast(n, size);
      OneClusterMore(rest, a, b, size);
    }
  }

  lemma OnePast(n: nat, size: nat)
    requires n > 0
    ensures size + n * size == (size + (n - 1) * size) + size
  {
    X.OneMore(n - 1, size);
  }

  lemma OneClusterMore(rest: seq<Address>, a: Address, b: int, size: nat)
    ensures Clusters(multiset(rest + [a]), b, size)
         == Clusters(multiset(rest), b, size) + if a <= b < a + size then 1 else 0
  {
    hide Clusters;
    assert multiset(rest + [a]) == multiset(rest) + multiset{a};
    ClustersAdd(multiset(rest), multiset{a}, b, size);
    ClustersOne(a, b, size);
  }

  lemma {:induction false} NoClusterAt(b: int, n: nat)
    ensures Clusters(multiset([]), b, n) == 0
  {
    if n > 0 { NoClusterAt(b, n - 1); }
  }

  lemma {:induction false} CutPlaces(size: nat, n: nat)
    requires size > 0
    ensures forall a :: a in Cut(size, size, n) ==> size <= a <= n * size
    ensures forall a :: multiset(Cut(size, size, n))[a] <= 1
  {
    hide Cut;
    if n == 0 {
      CutNothing(size, size, []);
    } else {
      CutPlaces(size, n - 1);
      CutMore(size, size, n - 1);
      OnePast(n, size);
      OneMorePlace(Cut(size, size, n - 1), size + (n - 1) * size);
    }
  }

  lemma OneMorePlace(rest: seq<Address>, a: Address)
    requires forall x :: x in rest ==> x < a
    requires forall x :: multiset(rest)[x] <= 1
    ensures forall x :: x in rest + [a] ==> x in rest || x == a
    ensures forall x :: multiset(rest + [a])[x] <= 1
  {
    assert a !in rest;
    assert multiset(rest + [a]) == multiset(rest) + multiset{a};
  }

  lemma CutIsPool(size: nat, n: nat)
    requires size > 0
    ensures Blocks(Cut(size, size, n), []) == multiset(Cut(size, size, n)) && BlocksOk(Blocks(Cut(size, size, n), []))
  {
    hide Cut;
    CutPlaces(size, n);
    assert 0 !in Cut(size, size, n);
  }

  // ---- A full leaf ----

  /** How many clusters extent number `i` has: the first `n + 1` extents have one each, the others two. */
  function Width(n: nat, i: nat): nat {
    if i <= n then 1 else 2
  }

  /** All of them before number `i` together. */
  function Widths(n: nat, i: nat): nat {
    if i <= n + 1 then i else n + 1 + 2 * (i - n - 1)
  }

  ghost predicate Keyed(es: seq<Entry>, n: nat, size: nat) {
    forall i :: 0 <= i < |es| ==> es[i].key == Width(n, i) * size
  }

  lemma KeyedSorted(es: seq<Entry>, n: nat, size: nat)
    requires Keyed(es, n, size)
    ensures O.Sorted(es) && forall i :: 0 <= i < |es| ==> es[i].key <= Width(n, |es|) * size
  {
    assert 1 * size <= 2 * size;
  }

  /** An extent of the next width goes to a place where the widths stay in turn. */
  lemma KeyedMore(es: seq<Entry>, n: nat, size: nat, e: Entry)
    requires Keyed(es, n, size) && e.key == Width(n, |es|) * size
    ensures L.LeafIndex(es, e.key) <= |es| && Keyed(InsertAt(es, L.LeafIndex(es, e.key), e), n, size)
  {
    hide L.LeafIndex, Width;
    var i := L.LeafIndex(es, e.key);
    KeyedSorted(es, n, size);
    var es' := InsertAt(es, i, e);
    forall j | 0 <= j < |es'| ensures es'[j].key == Width(n, j) * size {
      assert es'[j] == if j < i then es[j] else if j == i then e else es[j - 1];
      assert i <= j < |es| ==> e.key <= es[i].key <= es[j].key <= e.key;
      assert i < j ==> e.key <= es[i].key <= es[j - 1].key <= e.key;
    }
  }

  /** What one more extent makes of a leaf with room. */
  lemma KeyedPut(c: Caps, t: Tree, t': Tree, n: nat, size: nat, e: Entry)
    requires PutIn(c, t, t', e) && |t.levels| == 1 && |Row(t, 0)| < Cap(c, 0)
    requires Keyed(Row(t, 0), n, size) && e.key == Width(n, |Row(t, 0)|) * size
    ensures |t'.levels| == 1 && |t'.pool| == |t.pool| && Blocks(t'.pool, t'.levels) == Blocks(t.pool, t.levels)
    ensures Keyed(Row(t', 0), n, size) && |Row(t', 0)| == |Row(t, 0)| + 1
    ensures PutAt(t, e.key) <= |Row(t, 0)| && Row(t', 0) == InsertAt(Row(t, 0), PutAt(t, e.key), e)
  {
    hide LevelOk, Blocks, BlocksOk, Flat, Taken, L.Target, L.LeafPosition, L.LeafIndex, Keyed, Width;
    FullLeafTakes(c, t, e.key);
    OneLeafPut(c, t, t', e);
    OneLeafRow(c, t);
    OneLeafTarget(c, t, e.key);
    KeyedMore(Row(t, 0), n, size, e);
  }

  /** A full root leaf with `n + 1` single clusters and `n - 1` doubles, filed one behind the other. */
  method FillLeaf(c: Caps, size: nat, spares: nat) returns (fbt: T.BmTree)
    requires CapsOk(c) && c.leaf % 2 == 0 && 0 < size && 2 * size < V.WORD
    ensures fresh(fbt) && fbt.Valid() && fbt.caps == c && |fbt.levels| == 1 && |fbt.pool| == spares + 2
    ensures fbt.Owned() == multiset(Cut(size, size, spares + 3))
    ensures Keyed(fbt.Contents(), c.leaf / 2, size) && |fbt.Contents()| == c.leaf
    ensures Laid(fbt.Contents(), spares + 4, spares + 4 + Widths(c.leaf / 2, c.leaf), size)
  {
    hide LevelOk, Flat, Taken, PutIn, Blocks, BlocksOk, O.Ordered, Laid, Keyed, Packed, Cut, PutAt, O.Misplaces;
    var n, first := c.leaf / 2, spares + 4;
    fbt := new T.BmTree(c, Cut(size, size, spares + 3));
    CutIsPool(size, spares + 3);
    var st := fbt.Init();
    PoolLeft(c, fbt.Now(), size, spares + 3);
    LaidNothing(first, size);
    KeyedNothing(n, size);
    for i := 0 to c.leaf
      invariant fbt.Valid() && |fbt.levels| == 1 && |fbt.pool| == spares + 2
      invariant fbt.Owned() == multiset(Cut(size, size, spares + 3))
      invariant Keyed(fbt.Contents(), n, size) && |fbt.Contents()| == i
      invariant Laid(fbt.Contents(), first, first + Widths(n, i), size)
    {
      ghost var t := fbt.Now();
      var e := Piece(first + Widths(n, i), Width(n, i), size);
      FullLeafTakes(c, t, e.length);
      R.PutEntry(fbt, Filing(e));
      KeyedPut(c, t, fbt.Now(), n, size, Filing(e));
      LaidMore(Row(t, 0), PutAt(t, e.length), first, first + Widths(n, i), Width(n, i), size);
    }
  }

  lemma KeyedNothing(n: nat, size: nat)
    ensures Keyed([], n, size)
  {}

  lemma PoolLeft(c: Caps, t: Tree, size: nat, n: nat)
    requires Ready(c, t, 0) && |t.levels| == 1 && Blocks(t.pool, t.levels) == multiset(Cut(size, size, n)) && n > 0
    ensures |t.pool| == n - 1
  {
    hide Blocks, Cut;
    OneLeafRow(c, t);
    PoolOfOne(t);
  }

  /** It is the full leaf of half a round, and its last extent has two clusters. */
  lemma FullLeafIsHalfRound(c: Caps, t: Tree, size: nat)
    requires Ready(c, t, 0) && |t.levels| == 1 && c.leaf % 2 == 0 && size > 0
    requires Keyed(Row(t, 0), c.leaf / 2, size) && |Row(t, 0)| == c.leaf
    ensures Spin.HalfRound(c, t, size) && Row(t, 0)[c.leaf - 1].key == 2 * size
  {
    hide LevelOk, Blocks, BlocksOk, Flat;
    OneLeafRow(c, t);
    KeyedSorted(Row(t, 0), c.leaf / 2, size);
  }

  // ---- All extents ----

  /** The clusters before the last extent: the header, those of the tree and the spare ones, and free ones. */
  function Ahead(c: Caps, spares: nat): nat {
    spares + 4 + 3 * (c.leaf / 2)
  }

  /** How many clusters the device has. */
  function Room(c: Caps, spares: nat): nat {
    Ahead(c, spares) + 4
  }

  /** One cluster more splits the leaf. */
  method FileThird(c: Caps, size: nat, spares: nat) returns (fbt: T.BmTree)
    requires CapsOk(c) && c.leaf % 2 == 0 && 0 < size && 4 * size < V.WORD
    ensures fresh(fbt) && fbt.Valid() && fbt.caps == c && |fbt.pool| == spares
    ensures fbt.Owned() == multiset(Cut(size, size, spares + 3))
    ensures Spin.Spinning(c, fbt.Now(), size) && |fbt.Contents()| == c.leaf + 1
    ensures fbt.Contents()[c.leaf].key == 2 * size
    ensures fbt.levels != [] && Laid(fbt.Contents(), spares + 4, Ahead(c, spares), size)
  {
    hide Shape, Blocks, BlocksOk, Flat, Taken, PutIn, PutAt, Packed, Laid, Keyed, Cut;
    hide Spin.HalfRound, Spin.Spinning;
    var n, first := c.leaf / 2, spares + 4;
    var next := first + Widths(n, c.leaf);
    fbt := FillLeaf(c, size, spares);
    ghost var t := fbt.Now();
    FullLeafIsHalfRound(c, t, size);
    Spin.HalfStarts(c, t, size);
    R.PutEntry(fbt, Filing(Piece(next, 1, size)));
    Spin.SpinGive(c, t, fbt.Now(), size, Filing(Piece(next, 1, size)));
    SplitRow(c, t, fbt.Now(), size, Filing(Piece(next, 1, size)));
    LaidMore(Row(t, 0), PutAt(t, size), first, next, 1, size);
  }

  /** And an extent of four goes to the very end. */
  method FileAll(c: Caps, size: nat, spares: nat) returns (fbt: T.BmTree)
    requires CapsOk(c) && c.leaf % 2 == 0 && 0 < size && 4 * size < V.WORD
    ensures fresh(fbt) && fbt.Valid() && fbt.caps == c && |fbt.pool| == spares
    ensures fbt.Owned() == multiset(Cut(size, size, spares + 3))
    ensures Spin.SpinPlus(c, fbt.Now(), size) && fbt.Contents()[c.leaf + 1].key == 4 * size
    ensures fbt.levels != [] && Laid(fbt.Contents(), spares + 4, Room(c, spares), size)
  {
    hide Shape, Blocks, BlocksOk, Flat, Taken, PutIn, PutAt, Packed, Laid, Cut, Spin.Spinning, Spin.SpinPlus, Ahead;
    fbt := FileThird(c, size, spares);
    ghost var t := fbt.Now();
    var e := Piece(Ahead(c, spares), 4, size);
    Spin.PlusStarts(c, t, size, 4 * size);
    R.PutEntry(fbt, Filing(e));
    Spin.PlusPut(c, t, fbt.Now(), size, Filing(e));
    BlocksKept(c, t, fbt.Now(), Filing(e));
    Spin.AppendsAt(Row(t, 0), Filing(e));
    LaidMore(Row(t, 0), |Row(t, 0)|, spares + 4, Ahead(c, spares), 4, size);
  }

  lemma BlocksKept(c: Caps, t: Tree, t': Tree, e: Entry)
    requires PutIn(c, t, t', e)
    ensures Blocks(t'.pool, t'.levels) == Blocks(t.pool, t.levels) && t'.levels != []
  {}

  lemma SplitRow(c: Caps, t: Tree, t': Tree, size: nat, e: Entry)
    requires PutIn(c, t, t', e) && Spin.HalfRound(c, t, size) && e.key == size
    ensures Blocks(t'.pool, t'.levels) == Blocks(t.pool, t.levels) && t'.levels != []
    ensures PutAt(t, size) == c.leaf / 2 && Row(t', 0) == InsertAt(Row(t, 0), c.leaf / 2, e)
    ensures |Row(t', 0)| == c.leaf + 1 && Row(t', 0)[c.leaf] == Row(t, 0)[c.leaf - 1]
  {
    hide Shape, Blocks, BlocksOk, Flat, Taken, Packed, L.Target, L.LeafPosition, L.LeafIndex;
    Spin.HalfStarts(c, t, size);
  }

  /** Nothing overlaps. */
  lemma BooksAreSane(es: seq<Entry>, size: nat, spares: nat, room: nat)
    requires Laid(es, spares + 4, room, size)
    ensures Sane(Ledger(Extents(es), multiset(Cut(size, size, spares + 3)), []), size, room * size)
  {
    hide Hits, Clusters, Cut;
    var owned := multiset(Cut(size, size, spares + 3));
    X.OneMore(spares + 3, size);
    Spread(0, spares + 4, room - (spares + 4), size);
    forall b ensures Owners(Ledger(Extents(es), owned, []), size, b) <= if 0 < b < room * size then 1 else 0 {
      CutHolds(size, spares + 3, b);
      NoHits(b);
      ByteZero(size, spares, b);
    }
  }

  lemma NoHits(b: int)
    ensures Hits([], b) == 0
  {}

  lemma ByteZero(size: nat, spares: nat, b: int)
    ensures (spares + 4) * size <= b ==> size == 0 || b > 0
  {
    if size > 0 { X.AtLeast(spares + 4, size); }
  }

  // ---- The run ----

  /** An allocator in order over these extents, with as many spare clusters as the low mark asks for. */
  method Make(c: Caps, m: Marks) returns (space: A.Allocator)
    requires CapsOk(c) && c.leaf % 2 == 0 && 0 < m.size && m.low < m.high && Room(c, m.low) * m.size < V.WORD
    ensures fresh(space) && fresh(space.fbt) && space.Valid() && space.Limits() == m && space.held == []
    ensures space.fbt.caps == c && |space.fbt.pool| == m.low
    ensures Spin.SpinPlus(c, space.fbt.Now(), m.size) && space.fbt.Contents()[c.leaf + 1].key == 4 * m.size
  {
    hide LevelOk, BlocksOk, Sane, Filed, Spin.SpinPlus, Flat, Extents, Blocks, Cut, Clusters, Hits;
    Spread(4, Room(c, m.low), 0, m.size);
    Spread(1, 4, 0, m.size);
    var fbt := FileAll(c, m.size, m.low);
    BooksAreSane(fbt.Contents(), m.size, m.low, Room(c, m.low));
    space := new A.Allocator(fbt, m.size, Room(c, m.low) * m.size, m.low, m.high, []);
  }

  /** However many idle rounds refilling is given, it does not end. */
  method Spun(c: Caps, m: Marks, patience: nat) returns (space: A.Allocator, r: Result)
    requires CapsOk(c) && c.leaf % 2 == 0 && 0 < m.size && 0 < m.low < m.high && Room(c, m.low) * m.size < V.WORD
    ensures space.Valid() && r == Stalled && |space.held| == 2 && space.Limits() == m && space.fbt.caps == c
  {
    hide Sane, Filed, Balanced, A.InOrder, Spin.SpinPlus, Spin.Spinning, Idles, CanTake, TookOut, TakenEntry, PutIn;
    hide Flat, Blocks, BlocksOk, LevelOk, Extents, Released, Ended, Unpacked;
    space := Make(c, m);
    ghost var t := space.fbt.Now();
    var a, target;
    ghost var course;
    r, a := space.AllocateTreeBlocks();
    ghost var t1 := space.fbt.Now();
    A.InOrderReady(space.fbt, m.size, space.deviceSize, m.low, m.high, space.held);
    SamePlus(c, t, t1, m.size);
    Spin.PlusTakes(c, t1, m.size);
    X.IsMultiple(4, m.size);
    r, target, course := space.AllocateBlocks(4 * m.size, patience);
    Spin.PlusTake(c, t1, course.start, m.size, 4 * m.size);
    TookReady(c, t1, course.start, 4 * m.size);
    Spin.SpinIdles(m, c, course.start, patience + 1);
    IdlesStalled(m, c, course.start, patience, course.rounds, course.last, r, space.fbt.Now());
  }

  lemma SamePlus(c: Caps, t: Tree, t': Tree, size: nat)
    requires Spin.SpinPlus(c, t, size) && t' == t.(pool := t'.pool)
    ensures Spin.SpinPlus(c, t', size) && Row(t', 0) == Row(t, 0)
  {}

  /** Clusters of 4096 bytes, which take 170 free extents in a leaf, with marks of 12 and 24. */
  method SpunByDefault(patience: nat) returns (space: A.Allocator, r: Result)
    ensures space.Valid() && r == Stalled && |space.held| == 2 && space.Limits() == Marks(4096, 12, 24)
  {
    space, r := Spun(Caps(170, 255), Marks(4096, 12, 24), patience);
  }
}
