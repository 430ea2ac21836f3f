/** Finding an entry within one node. */
module BmTreeLocate {
  import opened BmTreeModel

  /** The child of an inner node to go to: the first one whose key is above `key`, or else the last one. */
  function RouteFrom(es: seq<Entry>, key: int, i: nat): (r: nat)
    requires i < |es|
    ensures i <= r < |es|
    ensures forall j :: i <= j < r ==> es[j].key <= key
    ensures r < |es| - 1 ==> key < es[r].key
    decreases |es| - i
  {
    if i < |es| - 1 && key >= es[i].key then RouteFrom(es, key, i + 1) else i
  }

  /** The first entry that is not below `key`. */
  function CeilFrom(es: seq<Entry>, key: int, i: nat): (r: nat)
    requires i <= |es|
    ensures i <= r <= |es|
    ensures forall j :: i <= j < r ==> es[j].key < key
    ensures r < |es| ==> key <= es[r].key
    decreases |es| - i
  {
    if i < |es| && key > es[i].key then CeilFrom(es, key, i + 1) else i
  }

  /** Onwards from `i` as long as the next key is `key`. */
  function LastEqual(es: seq<Entry>, key: int, i: nat): (r: nat)
    requires i <= |es|
    ensures i <= r <= |es| && (i < |es| ==> r < |es|)
    ensures forall j :: i < j <= r < |es| ==> es[j].key == key
    ensures r < |es| - 1 ==> es[r + 1].key != key
    decreases |es| - i
  {
    if i < |es| - 1 && key == es[i + 1].key then LastEqual(es, key, i + 1) else i
  }

  function LeafIndex(es: seq<Entry>, key: int): (r: nat)
    ensures r <= |es|
    ensures r == |es| <==> forall j :: 0 <= j < |es| ==> es[j].key < key
    ensures r < |es| ==> es[r].key >= key
  {
    var i := CeilFrom(es, key, 0);
    var r := LastEqual(es, key, i);
    assert r > i ==> es[r].key == key;
    r
  }

  /** The first entry with exactly `key`. */
  function StrictFrom(es: seq<Entry>, key: int, i: nat): (r: nat)
    requires i <= |es|
    ensures i <= r <= |es|
    ensures forall j :: i <= j < r ==> es[j].key != key
    ensures r < |es| ==> es[r].key == key
    decreases |es| - i
  {
    if i < |es| && key != es[i].key then StrictFrom(es, key, i + 1) else i
  }

  /** The leaf that the way down from node `p` of level `l` ends at. */
  ghost function LeafOf(t: Tree, l: nat, p: nat, key: int): nat
    decreases l
  {
    if l == 0 || l >= |t.levels| || p >= |t.levels[l]| || Ents(t.disk, t.levels[l][p]) == [] then p
    else LeafOf(t, l - 1, Before(t, l, p) + RouteFrom(Ents(t.disk, t.levels[l][p]), key, 0), key)
  }

  lemma LeafOfStep(t: Tree, l: nat, p: nat, key: int)
    requires l < |t.levels| && p < |t.levels[l]|
    ensures l == 0 ==> LeafOf(t, l, p, key) == p
    ensures var es := Ents(t.disk, t.levels[l][p]);
            l > 0 && es != [] ==> LeafOf(t, l, p, key) == LeafOf(t, l - 1, Before(t, l, p) + RouteFrom(es, key, 0), key)
  {}

  /** The leaf in which `key` is looked for. */
  ghost function Target(t: Tree, key: int): nat
    requires t.levels != []
  {
    LeafOf(t, |t.levels| - 1, 0, key)
  }

  /** The levels are the same, and so are all nodes above the leaves. */
  ghost predicate SameAbove(t: Tree, t': Tree) {
    && t'.levels == t.levels
    && forall k, x :: 0 < k < |t.levels| && 0 <= x < |t.levels[k]| ==>
         Ents(t'.disk, t.levels[k][x]) == Ents(t.disk, t.levels[k][x])
  }

  ghost function LeafEnts(t: Tree, p: nat): seq<Entry>
    requires t.levels != []
  {
    if p < |t.levels[0]| then Ents(t.disk, t.levels[0][p]) else []
  }

  /** The entry of a leaf that a removal takes, or the leaf's length. */
  function TakeIndex(es: seq<Entry>, key: int, strict: bool): nat {
    if strict then StrictFrom(es, key, 0) else LeafIndex(es, key)
  }

  /** Leaf `p` has an entry that a removal would take. */
  ghost predicate Holds(t: Tree, p: nat, key: int, strict: bool)
    requires t.levels != []
  {
    TakeIndex(LeafEnts(t, p), key, strict) < |LeafEnts(t, p)|
  }

  /** The in-order position of entry `i` of leaf `p`. */
  ghost function LeafPosition(t: Tree, p: nat, i: nat): nat
    requires t.levels != []
  {
    (if p <= |t.levels[0]| then Before(t, 0, p) else 0) + i
  }

  method Locate(es: seq<Entry>, key: int) returns (i: nat)
    requires es != []
    ensures i == RouteFrom(es, key, 0)
  {
    i := 0;
    while i < |es| - 1 && key >= es[i].key
      invariant i < |es| && RouteFrom(es, key, i) == RouteFrom(es, key, 0)
    {
      i := i + 1;
    }
  }

  method LocateInLeaf(es: seq<Entry>, key: int) returns (st: Status, i: nat)
    requires es != []
    ensures i == LeafIndex(es, key)
    ensures st == if i < |es| then OK else NotFound
  {
    i := 0;
    while i < |es| && key > es[i].key
      invariant i <= |es| && CeilFrom(es, key, i) == CeilFrom(es, key, 0)
    {
      i := i + 1;
    }
    while i < |es| - 1 && key == es[i + 1].key
      invariant i <= |es| && LastEqual(es, key, i) == LeafIndex(es, key)
    {
      i := i + 1;
    }
    st := if i >= |es| then NotFound else OK;
  }

  method LocateInLeafStrict(es: seq<Entry>, key: int) returns (st: Status, i: nat)
    requires es != []
    ensures i == StrictFrom(es, key, 0)
    ensures st == if i < |es| then OK else NotFound
  {
    i := 0;
    while i < |es| && key != es[i].key
      invariant i <= |es| && StrictFrom(es, key, i) == StrictFrom(es, key, 0)
    {
      i := i + 1;
    }
    st := if i >= |es| then NotFound else OK;
  }
}
