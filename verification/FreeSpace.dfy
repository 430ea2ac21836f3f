/** Who owns which byte of the device: free extents, clusters and extents in use, counted byte by byte. */
module FreeSpace {
  import opened BmTreeModel
  import opened Volumes
  import W = BmTreeSubtree

  // ---- Extents as the values of a tree ----

  /** An extent as the free blocks tree stores it, both words in one number. */
  function Packed(e: Extent): int {
    e.offset * WORD + e.length
  }

  function Unpacked(v: int): Extent {
    if v < 0 then Extent(0, 0) else Extent(v / WORD, v % WORD)
  }

  lemma UnpackPacked(e: Extent)
    requires e.length < WORD
    ensures Unpacked(Packed(e)) == e
  {}

  function Extents(es: seq<Entry>): (r: seq<Extent>)
    ensures |r| == |es| && forall i :: 0 <= i < |es| ==> r[i] == Unpacked(es[i].rec)
  {
    seq(|es|, i requires 0 <= i < |es| => Unpacked(es[i].rec))
  }

  /** Every free extent is filed under its own length. */
  ghost predicate Filed(es: seq<Entry>) {
    forall i :: 0 <= i < |es| ==> FiledEntry(es[i])
  }

  ghost predicate FiledEntry(e: Entry) {
    Unpacked(e.rec).length == e.key
  }

  lemma FiledRemove(es: seq<Entry>, i: nat)
    requires Filed(es) && i < |es|
    ensures Filed(RemoveAt(es, i)) && Unpacked(es[i].rec).length == es[i].key
    ensures Extents(RemoveAt(es, i)) == RemoveAt(Extents(es), i)
  {
    assert FiledEntry(es[i]);
  }

  lemma FiledInsert(es: seq<Entry>, i: nat, e: Entry)
    requires Filed(es) && i <= |es| && FiledEntry(e)
    ensures Filed(InsertAt(es, i, e))
    ensures Extents(InsertAt(es, i, e)) == InsertAt(Extents(es), i, Unpacked(e.rec))
  {}

  // ---- Counting the owners of a byte ----

  predicate Within(e: Extent, b: int) {
    e.offset <= b < e.offset + e.length
  }

  function Hit(e: Extent, b: int): nat {
    if Within(e, b) then 1 else 0
  }

  /** How many of the extents byte `b` is in. */
  ghost function Hits(es: seq<Extent>, b: int): nat {
    if es == [] then 0 else Hits(es[..|es| - 1], b) + Hit(es[|es| - 1], b)
  }

  /** How many of the clusters byte `b` is in; a cluster at any of the `n` addresses up to `b` reaches it. */
  ghost function Clusters(owned: multiset<Address>, b: int, n: nat): nat {
    if n == 0 then 0 else owned[b - n + 1] + Clusters(owned, b, n - 1)
  }

  function Bytes(es: seq<Extent>): nat {
    if es == [] then 0 else Bytes(es[..|es| - 1]) + es[|es| - 1].length
  }

  lemma {:induction false} HitsConcat(a: seq<Extent>, c: seq<Extent>, b: int)
    ensures Hits(a + c, b) == Hits(a, b) + Hits(c, b)
    ensures Bytes(a + c) == Bytes(a) + Bytes(c)
  {
    if c == [] {
      assert a + c == a;
    } else {
      HitsConcat(a, c[..|c| - 1], b);
      assert (a + c)[..|a + c| - 1] == a + c[..|c| - 1];
    }
  }

  lemma HitsOne(e: Extent, b: int)
    ensures Hits([e], b) == Hit(e, b) && Bytes([e]) == e.length
  {
    assert [e][..0] == [];
  }

  lemma HitsInsert(es: seq<Extent>, i: nat, e: Extent, b: int)
    requires i <= |es|
    ensures Hits(InsertAt(es, i, e), b) == Hits(es, b) + Hit(e, b)
    ensures Bytes(InsertAt(es, i, e)) == Bytes(es) + e.length
  {
    assert es == es[..i] + es[i..];
    HitsConcat(es[..i], es[i..], b);
    HitsConcat(es[..i], [e], b);
    HitsConcat(es[..i] + [e], es[i..], b);
    HitsOne(e, b);
  }

  lemma HitsRemove(es: seq<Extent>, i: nat, b: int)
    requires i < |es|
    ensures Hits(es, b) == Hits(RemoveAt(es, i), b) + Hit(es[i], b)
    ensures Bytes(es) == Bytes(RemoveAt(es, i)) + es[i].length
  {
    HitsInsert(RemoveAt(es, i), i, es[i], b);
    assert InsertAt(RemoveAt(es, i), i, es[i]) == es;
  }

  lemma {:induction false} ClustersAdd(a: multiset<Address>, c: multiset<Address>, b: int, n: nat)
    ensures Clusters(a + c, b, n) == Clusters(a, b, n) + Clusters(c, b, n)
  {
    if n > 0 {
      ClustersAdd(a, c, b, n - 1);
    }
  }

  lemma {:induction false} ClustersOne(a: Address, b: int, n: nat)
    ensures Clusters(multiset{a}, b, n) == if a <= b < a + n then 1 else 0
  {
    if n > 0 {
      ClustersOne(a, b, n - 1);
    }
  }

  /** An owned cluster is counted at each of its bytes. */
  lemma {:induction false} ClustersHas(owned: multiset<Address>, a: Address, b: int, n: nat)
    requires a <= b < a + n
    ensures Clusters(owned, b, n) >= owned[a]
    decreases n
  {
    if a != b - n + 1 {
      ClustersHas(owned, a, b, n - 1);
    }
  }

  lemma {:induction false} HitsHas(es: seq<Extent>, i: nat, b: int)
    requires i < |es| && Within(es[i], b)
    ensures Hits(es, b) >= 1
  {
    HitsRemove(es, i, b);
  }

  /** Splitting an extent in two changes no byte's owners. */
  lemma HitSplit(e: Extent, n: nat, b: int)
    requires n <= e.length
    ensures Hit(Extent(e.offset, n), b) + Hit(Extent(e.offset + n, e.length - n), b) == Hit(e, b)
  {}

  // ---- The books of an allocator ----

  /** Free extents, the clusters of the tree and the spare ones, and everything in use. */
  datatype Ledger = Ledger(free: seq<Extent>, owned: multiset<Address>, held: seq<Extent>)

  ghost function Owners(l: Ledger, clusterSize: nat, b: int): nat {
    Hits(l.free, b) + Clusters(l.owned, b, clusterSize) + Hits(l.held, b)
  }

  ghost function Total(l: Ledger, clusterSize: nat): nat {
    Bytes(l.free) + clusterSize * |l.owned| + Bytes(l.held)
  }

  /** No byte has two owners, and none has one outside the device or at address 0. */
  ghost predicate Sane(l: Ledger, clusterSize: nat, deviceSize: nat) {
    forall b :: Owners(l, clusterSize, b) <= if 0 < b < deviceSize then 1 else 0
  }

  /** Every byte has as many owners as before, and all of them together are as many bytes. */
  ghost predicate Balanced(l: Ledger, l': Ledger, clusterSize: nat) {
    && (forall b :: Owners(l', clusterSize, b) == Owners(l, clusterSize, b))
    && Total(l', clusterSize) == Total(l, clusterSize)
  }

  lemma BalancedSane(l: Ledger, l': Ledger, clusterSize: nat, deviceSize: nat)
    requires Balanced(l, l', clusterSize) && Sane(l, clusterSize, deviceSize)
    ensures Sane(l', clusterSize, deviceSize)
  {}

  lemma BalancedTwice(l: Ledger, l1: Ledger, l2: Ledger, clusterSize: nat)
    requires Balanced(l, l1, clusterSize) && Balanced(l1, l2, clusterSize)
    ensures Balanced(l, l2, clusterSize)
  {}

  /** A free extent comes into use. */
  lemma FreeToHeld(l: Ledger, i: nat, clusterSize: nat)
    requires i < |l.free|
    ensures Balanced(l, l.(free := RemoveAt(l.free, i), held := l.held + [l.free[i]]), clusterSize)
  {
    hide Hits, Clusters, Bytes;
    var e, l' := l.free[i], l.(free := RemoveAt(l.free, i), held := l.held + [l.free[i]]);
    forall b ensures Owners(l', clusterSize, b) == Owners(l, clusterSize, b) {
      HitsRemove(l.free, i, b);
      HitsConcat(l.held, [e], b);
      HitsOne(e, b);
    }
    HitsRemove(l.free, i, 0);
    HitsConcat(l.held, [e], 0);
    HitsOne(e, 0);
  }

  /** The extent that came into use last becomes free. */
  lemma HeldToFree(l: Ledger, i: nat, e: Extent, held: seq<Extent>, clusterSize: nat)
    requires i <= |l.free| && l.held == held + [e]
    ensures Balanced(l, l.(free := InsertAt(l.free, i, e), held := held), clusterSize)
  {
    var l' := l.(free := InsertAt(l.free, i, e), held := held);
    assert RemoveAt(l'.free, i) == l.free;
    FreeToHeld(l', i, clusterSize);
  }

  /** The extent that came into use last is seen as two. */
  lemma HeldSplit(l: Ledger, e: Extent, n: nat, held: seq<Extent>, clusterSize: nat)
    requires l.held == held + [e] && n <= e.length
    ensures Balanced(l, l.(held := held + [Extent(e.offset, n)] + [Extent(e.offset + n, e.length - n)]), clusterSize)
  {
    hide Hits, Clusters, Bytes;
    var a, c := Extent(e.offset, n), Extent(e.offset + n, e.length - n);
    var l' := l.(held := held + [a] + [c]);
    forall b ensures Owners(l', clusterSize, b) == Owners(l, clusterSize, b) && Bytes(l'.held) == Bytes(l.held) {
      HitsConcat(held, [e], b);
      HitsConcat(held, [a], b);
      HitsConcat(held + [a], [c], b);
      HitsOne(e, b);
      HitsOne(a, b);
      HitsOne(c, b);
      HitSplit(e, n, b);
    }
    assert Bytes(l'.held) == Bytes(l.held) by { assert Owners(l', clusterSize, 0) == Owners(l, clusterSize, 0); }
  }

  /** A cluster in use becomes a spare one. */
  lemma HeldToSpare(l: Ledger, a: Address, held: seq<Extent>, clusterSize: nat)
    requires a >= 0 && l.held == held + [Extent(a, clusterSize)]
    ensures Balanced(l, l.(owned := l.owned + multiset{a}, held := held), clusterSize)
  {
    hide Hits, Clusters, Bytes;
    var e, l' := Extent(a, clusterSize), l.(owned := l.owned + multiset{a}, held := held);
    forall b ensures Owners(l', clusterSize, b) == Owners(l, clusterSize, b) {
      HitsConcat(held, [e], b);
      HitsOne(e, b);
      ClustersAdd(l.owned, multiset{a}, b, clusterSize);
      ClustersOne(a, b, clusterSize);
    }
    HitsConcat(held, [e], 0);
    HitsOne(e, 0);
    assert clusterSize * |l'.owned| == clusterSize * |l.owned| + clusterSize;
  }

  lemma SpareToHeld(l: Ledger, a: Address, owned: multiset<Address>, clusterSize: nat)
    requires a >= 0 && l.owned == owned + multiset{a}
    ensures Balanced(l, l.(owned := owned, held := l.held + [Extent(a, clusterSize)]), clusterSize)
  {
    HeldToSpare(l.(owned := owned, held := l.held + [Extent(a, clusterSize)]), a, l.held, clusterSize);
  }

  lemma BalancedItself(l: Ledger, clusterSize: nat)
    ensures Balanced(l, l, clusterSize)
  {}

  /** An empty extent in use owns nothing. */
  lemma DropEmpty(l: Ledger, e: Extent, held: seq<Extent>, clusterSize: nat)
    requires l.held == held + [e] && e.length == 0
    ensures Balanced(l, l.(held := held), clusterSize)
  {
    hide Hits, Clusters, Bytes;
    forall b ensures Owners(l.(held := held), clusterSize, b) == Owners(l, clusterSize, b) {
      HitsConcat(held, [e], b);
      HitsOne(e, b);
    }
    HitsConcat(held, [e], 0);
    HitsOne(e, 0);
  }

  /** The first cluster of the extent that came into use last becomes a spare one. */
  lemma PushBalanced(l: Ledger, e: Extent, held: seq<Extent>, clusterSize: nat, deviceSize: nat)
    requires l.held == held + [e] && 0 < clusterSize <= e.length && Sane(l, clusterSize, deviceSize)
    ensures e.offset !in l.owned && e.offset != 0
    ensures var rest := Extent(e.offset + clusterSize, e.length - clusterSize);
            var l' := l.(owned := l.owned + multiset{e.offset}, held := held + [rest]);
            Balanced(l, l', clusterSize) && Sane(l', clusterSize, deviceSize)
  {
    hide Hits, Clusters, Bytes, Balanced, Sane;
    HeldIsNotOwned(l, e, held, clusterSize, deviceSize);
    var first, rest := Extent(e.offset, clusterSize), Extent(e.offset + clusterSize, e.length - clusterSize);
    HeldSplit(l, e, clusterSize, held, clusterSize);
    var l1 := l.(held := held + [first] + [rest]);
    var l2 := l.(held := held + [rest] + [first]);
    HeldSwap(l1, l2, held, first, rest, clusterSize);
    HeldToSpare(l2, e.offset, held + [rest], clusterSize);
    var l3 := l.(owned := l.owned + multiset{e.offset}, held := held + [rest]);
    BalancedTwice(l, l1, l2, clusterSize);
    BalancedTwice(l, l2, l3, clusterSize);
    BalancedSane(l, l3, clusterSize, deviceSize);
  }

  lemma HeldSwap(l: Ledger, l': Ledger, held: seq<Extent>, a: Extent, c: Extent, clusterSize: nat)
    requires l.held == held + [a] + [c] && l' == l.(held := held + [c] + [a])
    ensures Balanced(l, l', clusterSize)
  {
    hide Hits, Clusters, Bytes;
    forall b ensures Owners(l', clusterSize, b) == Owners(l, clusterSize, b) {
      HitsSwap(held, a, c, b);
    }
    HitsSwap(held, a, c, 0);
  }

  lemma HitsSwap(held: seq<Extent>, a: Extent, c: Extent, b: int)
    ensures Hits(held + [a] + [c], b) == Hits(held + [c] + [a], b)
    ensures Bytes(held + [a] + [c]) == Bytes(held + [c] + [a])
  {
    hide Hits, Bytes;
    HitsConcat(held, [a], b);
    HitsConcat(held + [a], [c], b);
    HitsConcat(held, [c], b);
    HitsConcat(held + [c], [a], b);
  }

  /** The books when an entry leaves the tree of free extents. */
  lemma TakenFromTree(es: seq<Entry>, i: nat, owned: multiset<Address>, held: seq<Extent>, clusterSize: nat,
          deviceSize: nat)
    requires i < |es| && Filed(es) && Sane(Ledger(Extents(es), owned, held), clusterSize, deviceSize)
    ensures var e, es' := Unpacked(es[i].rec), RemoveAt(es, i);
            var l, l' := Ledger(Extents(es), owned, held), Ledger(Extents(es'), owned, held + [e]);
            && e.length == es[i].key && e.length < WORD && Filed(es')
            && Balanced(l, l', clusterSize) && Sane(l', clusterSize, deviceSize)
            && Bytes(l'.free) + e.length == Bytes(l.free)
  {
    hide Sane, Balanced, Filed, Hits, Clusters, Bytes;
    var l, e := Ledger(Extents(es), owned, held), Unpacked(es[i].rec);
    FiledRemove(es, i);
    FreeToHeld(l, i, clusterSize);
    HitsRemove(l.free, i, 0);
    BalancedSane(l, Ledger(Extents(RemoveAt(es, i)), owned, held + [e]), clusterSize, deviceSize);
  }

  /** The books when the extent that came into use last is filed in the tree. */
  lemma GivenToTree(es: seq<Entry>, i: nat, e: Extent, owned: multiset<Address>, held: seq<Extent>,
                    clusterSize: nat, deviceSize: nat)
    requires i <= |es| && Filed(es) && e.length < WORD
    requires Sane(Ledger(Extents(es), owned, held + [e]), clusterSize, deviceSize)
    ensures var es' := InsertAt(es, i, Entry(e.length, Packed(e)));
            var l, l' := Ledger(Extents(es), owned, held + [e]), Ledger(Extents(es'), owned, held);
            && Filed(es')
            && Balanced(l, l', clusterSize) && Sane(l', clusterSize, deviceSize)
            && Bytes(l'.free) == Bytes(l.free) + e.length
  {
    hide Sane, Balanced, Filed, Hits, Clusters, Bytes, Packed, Unpacked;
    var l, x := Ledger(Extents(es), owned, held + [e]), Entry(e.length, Packed(e));
    UnpackPacked(e);
    FiledInsert(es, i, x);
    HeldToFree(l, i, e, held, clusterSize);
    HitsInsert(l.free, i, e, 0);
    BalancedSane(l, Ledger(Extents(InsertAt(es, i, x)), owned, held), clusterSize, deviceSize);
  }

  /** An extent in use is not one of the tree's or the spare clusters. */
  lemma HeldIsNotOwned(l: Ledger, e: Extent, held: seq<Extent>, clusterSize: nat, deviceSize: nat)
    requires Sane(l, clusterSize, deviceSize) && l.held == held + [e] && e.length > 0 && clusterSize > 0
    ensures e.offset !in l.owned && 0 < e.offset && e.offset + e.length <= deviceSize
  {
    hide Hits, Clusters;
    HitsHas(l.held, |held|, e.offset);
    ClustersHas(l.owned, e.offset, e.offset, clusterSize);
    assert Owners(l, clusterSize, e.offset) <= 1;
    var last := e.offset + e.length - 1;
    HitsHas(l.held, |held|, last);
    assert Owners(l, clusterSize, last) >= 1;
  }

  lemma SpareIsPlace(l: Ledger, a: Address, clusterSize: nat, deviceSize: nat)
    requires Sane(l, clusterSize, deviceSize) && a in l.owned && clusterSize > 0
    ensures a > 0
  {
    hide Hits, Clusters;
    ClustersHas(l.owned, a, a, clusterSize);
    assert Owners(l, clusterSize, a) >= 1;
  }

  lemma HeldLast(l: Ledger, i: nat, clusterSize: nat)
    requires i < |l.held|
    ensures Balanced(l, l.(held := RemoveAt(l.held, i) + [l.held[i]]), clusterSize)
  {
    hide Hits, Clusters, Bytes;
    var e, rest := l.held[i], RemoveAt(l.held, i);
    forall b ensures Owners(l.(held := rest + [e]), clusterSize, b) == Owners(l, clusterSize, b) {
      HitsRemove(l.held, i, b);
      HitsConcat(rest, [e], b);
      HitsOne(e, b);
    }
    HitsRemove(l.held, i, 0);
    HitsConcat(rest, [e], 0);
    HitsOne(e, 0);
  }

  // ---- Adding up ----

  lemma NoBytes()
    ensures Bytes(Extents([])) == 0
  {}

  lemma BytesStep(es: seq<Entry>, i: nat)
    requires i < |es|
    ensures Bytes(Extents(es[..i + 1])) == Bytes(Extents(es[..i])) + Unpacked(es[i].rec).length
  {
    assert Extents(es[..i + 1])[..i] == Extents(es[..i]);
  }

  /** A walk meets the extents in the reverse order, with the same bytes in all. */
  lemma {:induction false} BytesReverse(es: seq<Entry>)
    ensures Bytes(Extents(W.Reverse(es))) == Bytes(Extents(es))
  {
    hide Bytes;
    if es == [] {
      assert W.Reverse(es) == [];
    } else {
      var n := |es| - 1;
      BytesReverse(es[..n]);
      assert es[..n + 1] == es;
      BytesStep(es, n);
      assert Extents(W.Reverse(es)) == [Unpacked(es[n].rec)] + Extents(W.Reverse(es[..n]));
      HitsConcat([Unpacked(es[n].rec)], Extents(W.Reverse(es[..n])), 0);
      HitsOne(Unpacked(es[n].rec), 0);
    }
  }

  // ---- What one owner per byte means ----

  lemma HitsTwo(es: seq<Extent>, i: nat, j: nat, b: int)
    requires i < j < |es| && Within(es[i], b) && Within(es[j], b)
    ensures Hits(es, b) >= 2
  {
    HitsRemove(es, j, b);
    HitsHas(RemoveAt(es, j), i, b);
  }

  /** The first byte that two overlapping extents share. */
  function Shared(a: Extent, e: Extent): nat {
    if a.offset <= e.offset then e.offset else a.offset
  }

  /** Free extents, extents in use, spare clusters and the tree's clusters are pairwise apart. */
  lemma SaneApart(l: Ledger, clusterSize: nat, deviceSize: nat)
    requires Sane(l, clusterSize, deviceSize) && clusterSize > 0
    ensures forall i, j :: 0 <= i < j < |l.free| && l.free[i].length > 0 && l.free[j].length > 0 ==>
              Apart(l.free[i], l.free[j])
    ensures forall i, j :: 0 <= i < j < |l.held| && l.held[i].length > 0 && l.held[j].length > 0 ==>
              Apart(l.held[i], l.held[j])
    ensures forall i, j :: 0 <= i < |l.free| && 0 <= j < |l.held| && l.free[i].length > 0 && l.held[j].length > 0 ==>
              Apart(l.free[i], l.held[j])
    ensures forall i, a :: 0 <= i < |l.free| && a in l.owned && a >= 0 && l.free[i].length > 0 ==>
              Apart(l.free[i], Extent(a, clusterSize))
    ensures forall i, a :: 0 <= i < |l.held| && a in l.owned && a >= 0 && l.held[i].length > 0 ==>
              Apart(l.held[i], Extent(a, clusterSize))
  {
    hide Hits, Clusters;
    forall i, j | 0 <= i < j < |l.free| && l.free[i].length > 0 && l.free[j].length > 0
      ensures Apart(l.free[i], l.free[j])
    {
      OneOwner(l, clusterSize, deviceSize, Shared(l.free[i], l.free[j]));
      if !Apart(l.free[i], l.free[j]) { HitsTwo(l.free, i, j, Shared(l.free[i], l.free[j])); }
    }
    forall i, j | 0 <= i < j < |l.held| && l.held[i].length > 0 && l.held[j].length > 0
      ensures Apart(l.held[i], l.held[j])
    {
      OneOwner(l, clusterSize, deviceSize, Shared(l.held[i], l.held[j]));
      if !Apart(l.held[i], l.held[j]) { HitsTwo(l.held, i, j, Shared(l.held[i], l.held[j])); }
    }
    forall i, j | 0 <= i < |l.free| && 0 <= j < |l.held| && l.free[i].length > 0 && l.held[j].length > 0
      ensures Apart(l.free[i], l.held[j]) {
      var b := Shared(l.free[i], l.held[j]);
      OneOwner(l, clusterSize, deviceSize, b);
      if !Apart(l.free[i], l.held[j]) {
        HitsHas(l.free, i, b);
        HitsHas(l.held, j, b);
      }
    }
    forall i, a | 0 <= i < |l.free| && a in l.owned && a >= 0 && l.free[i].length > 0
      ensures Apart(l.free[i], Extent(a, clusterSize)) {
      var b := Shared(l.free[i], Extent(a, clusterSize));
      OneOwner(l, clusterSize, deviceSize, b);
      if !Apart(l.free[i], Extent(a, clusterSize)) {
        HitsHas(l.free, i, b);
        ClustersHas(l.owned, a, b, clusterSize);
      }
    }
    forall i, a | 0 <= i < |l.held| && a in l.owned && a >= 0 && l.held[i].length > 0
      ensures Apart(l.held[i], Extent(a, clusterSize)) {
      var b := Shared(l.held[i], Extent(a, clusterSize));
      OneOwner(l, clusterSize, deviceSize, b);
      if !Apart(l.held[i], Extent(a, clusterSize)) {
        HitsHas(l.held, i, b);
        ClustersHas(l.owned, a, b, clusterSize);
      }
    }
  }

  lemma OneOwner(l: Ledger, clusterSize: nat, deviceSize: nat, b: int)
    requires Sane(l, clusterSize, deviceSize)
    ensures Hits(l.free, b) + Clusters(l.owned, b, clusterSize) + Hits(l.held, b) <= 1
  {
    assert Owners(l, clusterSize, b) <= 1;
  }

  /** Two clusters of the tree or the spares are apart too. */
  lemma {:induction false} ClustersTwo(owned: multiset<Address>, a: Address, c: Address, b: int, n: nat)
    requires a < c <= b < a + n && a in owned && c in owned
    ensures Clusters(owned, b, n) >= 2
    decreases n
  {
    if a == b - n + 1 {
      ClustersHas(owned, c, b, n - 1);
    } else {
      ClustersTwo(owned, a, c, b, n - 1);
    }
  }

  lemma SaneClusters(l: Ledger, clusterSize: nat, deviceSize: nat)
    requires Sane(l, clusterSize, deviceSize)
    ensures forall a, c :: a in l.owned && c in l.owned && a < c ==> a + clusterSize <= c
    ensures forall a :: a in l.owned && clusterSize > 0 ==> 0 < a && a + clusterSize <= deviceSize
  {
    hide Hits, Clusters;
    forall a, c | a in l.owned && c in l.owned && a < c ensures a + clusterSize <= c {
      OneOwner(l, clusterSize, deviceSize, c);
      if c < a + clusterSize { ClustersTwo(l.owned, a, c, c, clusterSize); }
    }
    forall a | a in l.owned && clusterSize > 0 ensures 0 < a && a + clusterSize <= deviceSize {
      ClustersHas(l.owned, a, a, clusterSize);
      ClustersHas(l.owned, a, a + clusterSize - 1, clusterSize);
      assert Owners(l, clusterSize, a) >= 1 && Owners(l, clusterSize, a + clusterSize - 1) >= 1;
    }
  }
}
