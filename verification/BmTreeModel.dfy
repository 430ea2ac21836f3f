/**
 The blocks of a Bm+tree and what it means for a heap of blocks to hold one.

 A tree is described by its `levels`: for every level the addresses of its nodes from left to right,
 leaves first. `Flat` is the in-order concatenation of the entries of a row of nodes. A level is linked to
 the next one when the records of the upper row, read left to right, are exactly the nodes of the lower row.
 */
module BmTreeModel {

  type Address = int

  /** How many entries a leaf and an inner node can hold. */
  datatype Caps = Caps(leaf: nat, inner: nat)

  predicate CapsOk(c: Caps) {
    c.leaf >= 4 && c.inner >= 4
  }

  function Cap(c: Caps, level: nat): nat {
    if level > 0 then c.inner else c.leaf
  }

  /** A key with its record: the address of a child in an inner node, a value in a leaf. */
  datatype Entry = Entry(key: int, rec: int)

  datatype Block = Block(level: nat, entries: seq<Entry>, prev: Address)

  type Disk = map<Address, Block>

  /** A node as an operation holds it: its address and the way back up through its parents. */
  datatype View = Top(addr: Address) | Child(addr: Address, parent: View, index: nat)

  /** A whole tree with the free blocks it can use; `levels` only exists in specifications. */
  datatype Tree = Tree(disk: Disk, levels: seq<seq<Address>>, root: Address, pool: seq<Address>)

  datatype Status = OK | NotFound | NoSpace | CantAdopt | Internal

  function Ents(d: Disk, a: Address): seq<Entry> {
    if a in d then d[a].entries else []
  }

  ghost function Flat(d: Disk, row: seq<Address>): seq<Entry> {
    if row == [] then [] else Ents(d, row[0]) + Flat(d, row[1..])
  }

  function Recs(es: seq<Entry>): (r: seq<int>)
    ensures |r| == |es| && forall i :: 0 <= i < |es| ==> r[i] == es[i].rec
  {
    seq(|es|, i requires 0 <= i < |es| => es[i].rec)
  }

  function InsertAt<T>(s: seq<T>, i: nat, x: T): (r: seq<T>)
    requires i <= |s|
    ensures |r| == |s| + 1
  {
    s[..i] + [x] + s[i..]
  }

  function RemoveAt<T>(s: seq<T>, i: nat): (r: seq<T>)
    requires i < |s|
    ensures |r| == |s| - 1
  {
    s[..i] + s[i + 1..]
  }

  /** The last address of a row, or 0. */
  function LastOf(row: seq<Address>): Address {
    if row == [] then 0 else row[|row| - 1]
  }

  // ---- Well-formed rows and trees ----

  ghost predicate NodeOk(c: Caps, d: Disk, row: seq<Address>, l: nat, top: bool, p: nat)
    requires p < |row|
  {
    && row[p] != 0
    && row[p] in d
    && d[row[p]].level == l
    && d[row[p]].prev == (if p == 0 then 0 else row[p - 1])
    && |d[row[p]].entries| <= Cap(c, l)
    && |d[row[p]].entries| >= (if !top then Cap(c, l) / 2 else if l > 0 then 2 else 0)
  }

  ghost predicate RowOk(c: Caps, d: Disk, row: seq<Address>, l: nat, top: bool) {
    && row != []
    && (forall p :: 0 <= p < |row| ==> NodeOk(c, d, row, l, top, p))
    && (forall p, q :: 0 <= p < q < |row| ==> Differ(row, p, q))
    && (top ==> |row| == 1)
  }

  ghost predicate Differ(row: seq<Address>, p: nat, q: nat)
    requires p < |row| && q < |row|
  {
    row[p] != row[q]
  }

  /** Level `k` is a well-formed row, and the entries of the level above it point at its nodes in order. */
  ghost predicate LevelOk(c: Caps, d: Disk, levels: seq<seq<Address>>, k: nat)
    requires k < |levels|
  {
    && RowOk(c, d, levels[k], k, k == |levels| - 1)
    && (k < |levels| - 1 ==> Recs(Flat(d, levels[k + 1])) == levels[k])
  }

  /** The part of the tree from level `from` upwards is well formed. */
  ghost predicate Shape(c: Caps, d: Disk, levels: seq<seq<Address>>, root: Address, from: nat) {
    && from < |levels|
    && levels[|levels| - 1] == [root]
    && (forall k :: from <= k < |levels| ==> LevelOk(c, d, levels, k))
  }

  /** `v` views node `p` of level `l`, and every parent it mentions is the real one. */
  ghost predicate ViewAt(d: Disk, levels: seq<seq<Address>>, v: View, l: nat, p: nat)
    decreases v, 0
  {
    && l < |levels|
    && p < |levels[l]|
    && levels[l][p] == v.addr
    && match v
       case Top(_) => l == |levels| - 1
       case Child(_, parent, index) =>
         && l + 1 < |levels|
         && exists q: nat :: ParentAt(d, levels, parent, index, l, p, q)
  }

  ghost predicate ParentAt(d: Disk, levels: seq<seq<Address>>, parent: View, index: nat, l: nat, p: nat, q: nat)
    requires l + 1 < |levels|
    decreases parent, 1
  {
    && q < |levels[l + 1]|
    && ViewAt(d, levels, parent, l + 1, q)
    && index < |Ents(d, parent.addr)|
    && |Flat(d, levels[l + 1][..q])| + index == p
  }

  // ---- The blocks a tree and its pool own ----

  ghost function Bag(levels: seq<seq<Address>>): multiset<Address> {
    if levels == [] then multiset{} else multiset(levels[0]) + Bag(levels[1..])
  }

  ghost function Blocks(pool: seq<Address>, levels: seq<seq<Address>>): multiset<Address> {
    multiset(pool) + Bag(levels)
  }

  /** No block is owned twice, and address 0 (which ends the chain of leaves) is never owned. */
  ghost predicate BlocksOk(blocks: multiset<Address>) {
    && (forall a :: blocks[a] <= 1)
    && 0 !in blocks
  }

  /** The tree is usable from level `l` upwards: what holds while a change travels up through the levels. */
  ghost predicate Ready(c: Caps, t: Tree, l: nat) {
    CapsOk(c) && Shape(c, t.disk, t.levels, t.root, l) && BlocksOk(Blocks(t.pool, t.levels))
  }

  /** Node `p` of level `l`. */
  ghost predicate IsNode(t: Tree, l: nat, p: nat) {
    l < |t.levels| && p < |t.levels[l]| && t.levels[l][p] in t.disk
  }

  ghost function Node(t: Tree, l: nat, p: nat): Block
    requires IsNode(t, l, p)
  {
    t.disk[t.levels[l][p]]
  }

  /** The in-order entries of level `l`. */
  ghost function Row(t: Tree, l: nat): seq<Entry>
    requires l < |t.levels|
  {
    Flat(t.disk, t.levels[l])
  }

  /** How many entries of level `l` come before those of its node `p`. */
  ghost function Before(t: Tree, l: nat, p: nat): nat
    requires l < |t.levels| && p <= |t.levels[l]|
  {
    |Flat(t.disk, t.levels[l][..p])|
  }

  // ---- Frames ----

  /** The nodes of a row are the same on both disks. */
  ghost predicate SameRow(d: Disk, d': Disk, row: seq<Address>) {
    forall p :: 0 <= p < |row| && row[p] in d ==> row[p] in d' && d'[row[p]] == d[row[p]]
  }
}
