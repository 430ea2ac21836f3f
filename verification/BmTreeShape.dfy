/** Lemmas on rows, links, views and block bags: what each primitive rearrangement of blocks keeps. */
module BmTreeShape {
  import opened BmTreeModel

  // ---- Flat ----

  lemma {:induction false} FlatConcat(d: Disk, s: seq<Address>, t: seq<Address>)
    ensures Flat(d, s + t) == Flat(d, s) + Flat(d, t)
  {
    if s == [] {
      assert s + t == t;
    } else {
      assert (s + t)[1..] == s[1..] + t;
      FlatConcat(d, s[1..], t);
    }
  }

  lemma FlatThree(d: Disk, s: seq<Address>, t: seq<Address>, u: seq<Address>)
    ensures Flat(d, s + t + u) == Flat(d, s) + Flat(d, t) + Flat(d, u)
  {
    FlatConcat(d, s, t);
    FlatConcat(d, s + t, u);
  }

  lemma FlatNone(d: Disk)
    ensures Flat(d, []) == []
  {}

  lemma FlatOne(d: Disk, a: Address)
    ensures Flat(d, [a]) == Ents(d, a)
  {
    assert Flat(d, [a]) == Ents(d, a) + Flat(d, []);
  }

  lemma FlatTwo(d: Disk, a: Address, b: Address)
    ensures Flat(d, [a, b]) == Ents(d, a) + Ents(d, b)
  {
    assert [a, b][1..] == [b];
    FlatOne(d, b);
  }

  lemma FlatAt(d: Disk, s: seq<Address>, p: nat)
    requires p < |s|
    ensures Flat(d, s) == Flat(d, s[..p]) + Ents(d, s[p]) + Flat(d, s[p + 1..])
    ensures Flat(d, s[..p + 1]) == Flat(d, s[..p]) + Ents(d, s[p])
  {
    assert s == s[..p + 1] + s[p + 1..] && s[..p + 1] == s[..p] + [s[p]];
    FlatConcat(d, s[..p], [s[p]]);
    FlatConcat(d, s[..p + 1], s[p + 1..]);
    FlatOne(d, s[p]);
  }

  lemma {:induction false} FlatFrame(d: Disk, d': Disk, s: seq<Address>)
    requires forall a :: a in s ==> Ents(d', a) == Ents(d, a)
    ensures Flat(d', s) == Flat(d, s)
  {
    if s != [] {
      FlatFrame(d, d', s[1..]);
    }
  }

  /** Only node `p` of the row changed its entries. */
  lemma FlatPut(d: Disk, d': Disk, s: seq<Address>, p: nat)
    requires p < |s|
    requires forall q :: 0 <= q < |s| && q != p ==> Ents(d', s[q]) == Ents(d, s[q])
    ensures Flat(d', s) == Flat(d, s[..p]) + Ents(d', s[p]) + Flat(d, s[p + 1..])
  {
    FlatAt(d', s, p);
    FlatFrame(d, d', s[..p]);
    FlatFrame(d, d', s[p + 1..]);
  }

  /** Node `p` of the row made way for the nodes `mid`. */
  lemma FlatReplace(d: Disk, d': Disk, s: seq<Address>, p: nat, mid: seq<Address>)
    requires p < |s|
    requires forall q :: 0 <= q < |s| && q != p ==> Ents(d', s[q]) == Ents(d, s[q])
    ensures Flat(d', s[..p] + mid + s[p + 1..]) == Flat(d, s[..p]) + Flat(d', mid) + Flat(d, s[p + 1..])
  {
    FlatFrame(d, d', s[..p]);
    FlatFrame(d, d', s[p + 1..]);
    FlatThree(d', s[..p], mid, s[p + 1..]);
  }

  // ---- Frames ----

  lemma SameRowTwice(d: Disk, d1: Disk, d2: Disk, row: seq<Address>)
    requires SameRow(d, d1, row) && SameRow(d1, d2, row)
    ensures SameRow(d, d2, row)
  {}

  lemma RowFrame(c: Caps, d: Disk, d': Disk, row: seq<Address>, l: nat, top: bool)
    requires RowOk(c, d, row, l, top) && SameRow(d, d', row)
    ensures RowOk(c, d', row, l, top) && Flat(d', row) == Flat(d, row)
  {
    forall p: nat | p < |row| ensures NodeOk(c, d', row, l, top, p) && Ents(d', row[p]) == Ents(d, row[p]) {
      assert NodeOk(c, d, row, l, top, p);
    }
    FlatFrame(d, d', row);
  }

  lemma ShapeFrame(c: Caps, d: Disk, d': Disk, levels: seq<seq<Address>>, levels': seq<seq<Address>>,
                   root: Address, from: nat)
    requires Shape(c, d, levels, root, from)
    requires |levels'| == |levels| && forall k :: from <= k < |levels| ==> levels'[k] == levels[k]
    requires forall k :: from <= k < |levels| ==> SameRow(d, d', levels[k])
    ensures Shape(c, d', levels', root, from)
    ensures forall k :: from <= k < |levels| ==> Flat(d', levels[k]) == Flat(d, levels[k])
  {
    forall k | from <= k < |levels| ensures RowOk(c, d', levels[k], k, k == |levels| - 1)
                                     && Flat(d', levels[k]) == Flat(d, levels[k]) {
      assert LevelOk(c, d, levels, k);
      RowFrame(c, d, d', levels[k], k, k == |levels| - 1);
    }
    forall k | from <= k < |levels| ensures LevelOk(c, d', levels', k) {
      assert LevelOk(c, d, levels, k);
    }
  }

  lemma {:induction false} ViewFrame(d: Disk, d': Disk, levels: seq<seq<Address>>, levels': seq<seq<Address>>,
                  v: View, l: nat, p: nat)
    requires ViewAt(d, levels, v, l, p)
    requires |levels'| == |levels| && forall k :: l <= k < |levels| ==> levels'[k] == levels[k]
    requires forall k, x :: l <= k < |levels| && 0 <= x < |levels[k]| ==>
               Ents(d', levels[k][x]) == Ents(d, levels[k][x])
    ensures ViewAt(d', levels', v, l, p)
    decreases v
  {
    if v.Child? {
      var q: nat :| ParentAt(d, levels, v.parent, v.index, l, p, q);
      ViewFrame(d, d', levels, levels', v.parent, l + 1, q);
      FlatFrame(d, d', levels[l + 1][..q]);
      assert ParentAt(d', levels', v.parent, v.index, l, p, q);
    }
  }

  /** The parent of a view, still in place after a change below it. */
  lemma ParentView(c: Caps, d: Disk, levels: seq<seq<Address>>, root: Address,
                   d': Disk, levels': seq<seq<Address>>, v: View, l: nat, p: nat)
    returns (q: nat)
    requires Shape(c, d, levels, root, l) && ViewAt(d, levels, v, l, p) && v.Child?
    requires |levels'| == |levels| && forall k :: l < k < |levels| ==> levels'[k] == levels[k]
    requires forall k :: l < k < |levels| ==> SameRow(d, d', levels[k])
    ensures l + 1 < |levels| && ParentAt(d', levels', v.parent, v.index, l, p, q)
    ensures Ents(d', v.parent.addr) == Ents(d, v.parent.addr)
  {
    q :| ParentAt(d, levels, v.parent, v.index, l, p, q);
    forall k, x | l < k < |levels| && 0 <= x < |levels[k]| ensures Ents(d', levels[k][x]) == Ents(d, levels[k][x]) {
      assert SameRow(d, d', levels[k]) && LevelOk(c, d, levels, k) && NodeOk(c, d, levels[k], k, k == |levels| - 1, x);
    }
    ViewFrame(d, d', levels, levels', v.parent, l + 1, q);
    FlatFrame(d, d', levels[l + 1][..q]);
  }

  /** A node on another level is a different block. */
  lemma LevelsApart(c: Caps, d: Disk, levels: seq<seq<Address>>, root: Address, from: nat,
                    k: nat, x: nat, l: nat, y: nat)
    requires Shape(c, d, levels, root, from)
    requires from <= k < |levels| && from <= l < |levels| && k != l
    requires x < |levels[k]| && y < |levels[l]|
    ensures levels[k][x] != levels[l][y]
  {
    assert LevelOk(c, d, levels, k) && LevelOk(c, d, levels, l);
    assert NodeOk(c, d, levels[k], k, k == |levels| - 1, x);
    assert NodeOk(c, d, levels[l], l, l == |levels| - 1, y);
  }

  /** What is known of a single node. */
  lemma NodeFacts(c: Caps, t: Tree, l: nat, p: nat)
    requires Ready(c, t, l) && p < |t.levels[l]|
    ensures IsNode(t, l, p) && Node(t, l, p).level == l
    ensures |Node(t, l, p).entries| <= Cap(c, l)
    ensures |Node(t, l, p).entries| >= (if l < |t.levels| - 1 then Cap(c, l) / 2 else if l > 0 then 2 else 0)
    ensures Node(t, l, p).prev == (if p == 0 then 0 else t.levels[l][p - 1])
    ensures l == |t.levels| - 1 ==> p == 0 && |t.levels[l]| == 1 && t.levels[l][0] == t.root
  {
    assert LevelOk(c, t.disk, t.levels, l);
    assert NodeOk(c, t.disk, t.levels[l], l, l == |t.levels| - 1, p);
  }

  lemma UpperReady(c: Caps, t: Tree, l: nat)
    requires Ready(c, t, 0) && l < |t.levels|
    ensures Ready(c, t, l)
  {}

  /** The root as an operation finds it. */
  lemma TopView(c: Caps, t: Tree)
    requires Ready(c, t, 0)
    ensures t.levels != [] && ViewAt(t.disk, t.levels, Top(t.root), |t.levels| - 1, 0)
    ensures |t.levels[|t.levels| - 1]| == 1 && t.levels[|t.levels| - 1][0] == t.root
  {}

  /** Entry `i` of an inner node points at a node of the level below. */
  lemma ChildOf(c: Caps, t: Tree, l: nat, q: nat, i: nat)
    requires Ready(c, t, l + 1) && l + 1 < |t.levels| && Recs(Row(t, l + 1)) == t.levels[l]
    requires q < |t.levels[l + 1]| && i < |Ents(t.disk, t.levels[l + 1][q])|
    ensures Before(t, l + 1, q) + i < |t.levels[l]|
    ensures t.levels[l][Before(t, l + 1, q) + i] == Ents(t.disk, t.levels[l + 1][q])[i].rec
  {
    FlatAt(t.disk, t.levels[l + 1], q);
    assert Row(t, l + 1)[Before(t, l + 1, q) + i] == Ents(t.disk, t.levels[l + 1][q])[i];
  }

  lemma ChildOfRow(c: Caps, t: Tree, l: nat, p: nat, i: nat)
    requires Ready(c, t, 0) && 0 < l < |t.levels| && p < |t.levels[l]| && i < |Ents(t.disk, t.levels[l][p])|
    ensures Before(t, l, p) + i < |t.levels[l - 1]|
    ensures t.levels[l - 1][Before(t, l, p) + i] == Ents(t.disk, t.levels[l][p])[i].rec
  {
    UpperReady(c, t, l);
    assert LevelOk(c, t.disk, t.levels, l - 1);
    ChildOf(c, t, l - 1, p, i);
  }

  /** A step down to child `idx`. */
  lemma ChildView(c: Caps, t: Tree, v: View, l: nat, p: nat, idx: nat) returns (q: nat)
    requires Ready(c, t, 0) && 0 < l && ViewAt(t.disk, t.levels, v, l, p) && idx < |Ents(t.disk, v.addr)|
    ensures q == Before(t, l, p) + idx
    ensures ViewAt(t.disk, t.levels, Child(Ents(t.disk, v.addr)[idx].rec, v, idx), l - 1, q)
  {
    hide Flat, Blocks, BlocksOk, RowOk;
    var es := Ents(t.disk, v.addr);
    q := Before(t, l, p) + idx;
    FlatAt(t.disk, t.levels[l], p);
    assert Row(t, l)[q] == es[idx];
    assert LevelOk(c, t.disk, t.levels, l - 1);
    assert Recs(Row(t, l)) == t.levels[l - 1];
    assert ParentAt(t.disk, t.levels, v, idx, l - 1, q, p);
  }

  // ---- Replacing the entries of one node ----

  function Put(d: Disk, a: Address, es: seq<Entry>): Disk
    requires a in d
  {
    d[a := d[a].(entries := es)]
  }

  lemma Distinct(c: Caps, d: Disk, row: seq<Address>, l: nat, top: bool)
    requires RowOk(c, d, row, l, top)
    ensures forall q, r :: 0 <= q < |row| && 0 <= r < |row| && q != r ==> row[q] != row[r]
    ensures forall q :: 0 <= q < |row| ==> row[q] in d
  {
    forall q, r | 0 <= q < |row| && 0 <= r < |row| && q != r ensures row[q] != row[r] {
      if q < r { assert Differ(row, q, r); } else { assert Differ(row, r, q); }
    }
    forall q: nat | q < |row| ensures row[q] in d {
      assert NodeOk(c, d, row, l, top, q);
    }
  }

  /** Node `p` of a row gets new entries, still within its bounds. */
  lemma RowPut(c: Caps, d: Disk, row: seq<Address>, l: nat, top: bool, p: nat, es: seq<Entry>)
    requires RowOk(c, d, row, l, top) && p < |row| && row[p] in d
    requires |es| <= Cap(c, l)
    requires |es| >= (if !top then Cap(c, l) / 2 else if l > 0 then 2 else 0)
    ensures RowOk(c, Put(d, row[p], es), row, l, top)
  {
    Distinct(c, d, row, l, top);
    forall q: nat | q < |row| ensures NodeOk(c, Put(d, row[p], es), row, l, top, q) {
      assert NodeOk(c, d, row, l, top, q);
    }
  }

  lemma RowPutFlat(c: Caps, d: Disk, row: seq<Address>, l: nat, top: bool, p: nat, es: seq<Entry>)
    requires RowOk(c, d, row, l, top) && p < |row| && row[p] in d
    ensures Flat(Put(d, row[p], es), row) == Flat(d, row[..p]) + es + Flat(d, row[p + 1..])
  {
    Distinct(c, d, row, l, top);
    FlatPut(d, Put(d, row[p], es), row, p);
  }

  /** A change to one node of level `l` is not seen by the other levels. */
  lemma PutFrame(c: Caps, d: Disk, levels: seq<seq<Address>>, root: Address, l: nat, p: nat, es: seq<Entry>, k: nat)
    requires Shape(c, d, levels, root, l) && p < |levels[l]| && levels[l][p] in d
    requires l < k < |levels|
    ensures SameRow(d, Put(d, levels[l][p], es), levels[k])
    ensures RowOk(c, Put(d, levels[l][p], es), levels[k], k, k == |levels| - 1)
    ensures Flat(Put(d, levels[l][p], es), levels[k]) == Flat(d, levels[k])
  {
    forall x: nat | x < |levels[k]| ensures levels[k][x] != levels[l][p] {
      LevelsApart(c, d, levels, root, l, k, x, l, p);
    }
    assert LevelOk(c, d, levels, k);
    RowFrame(c, d, Put(d, levels[l][p], es), levels[k], k, k == |levels| - 1);
  }

  lemma PutEntries(c: Caps, d: Disk, levels: seq<seq<Address>>, root: Address, l: nat, p: nat, es: seq<Entry>)
    requires Shape(c, d, levels, root, l) && p < |levels[l]| && levels[l][p] in d
    requires |es| <= Cap(c, l)
    requires |es| >= (if l < |levels| - 1 then Cap(c, l) / 2 else if l > 0 then 2 else 0)
    ensures Shape(c, Put(d, levels[l][p], es), levels, root, l)
  {
    var d' := Put(d, levels[l][p], es);
    forall k | l <= k < |levels| ensures LevelOk(c, d', levels, k) {
      assert LevelOk(c, d, levels, k);
      if k == l {
        RowPut(c, d, levels[l], l, l == |levels| - 1, p, es);
      } else {
        PutFrame(c, d, levels, root, l, p, es, k);
      }
      if k < |levels| - 1 {
        PutFrame(c, d, levels, root, l, p, es, k + 1);
      }
    }
  }

  // ---- Splitting ----

  /** The disk after the left half of node `a` has moved to `sib`. */
  function Halved(d: Disk, a: Address, sib: Address): Disk
    requires a in d
  {
    var es := d[a].entries;
    var numLeft := |es| / 2;
    d[sib := Block(d[a].level, es[..numLeft], d[a].prev)][a := Block(d[a].level, es[numLeft..], sib)]
  }

  /** Halving node `p` of a row: the left half moves to `sib`, which enters the row before it. */
  lemma SplitRow(c: Caps, d: Disk, row: seq<Address>, l: nat, top: bool, p: nat, sib: Address)
    requires CapsOk(c) && RowOk(c, d, row, l, top)
    requires p < |row| && row[p] in d && |d[row[p]].entries| == Cap(c, l)
    requires sib != 0 && sib !in row
    ensures RowOk(c, Halved(d, row[p], sib), InsertAt(row, p, sib), l, false)
  {
    Distinct(c, d, row, l, top);
    var row' := InsertAt(row, p, sib);
    forall q: nat | q < |row'| ensures NodeOk(c, Halved(d, row[p], sib), row', l, false, q) {
      SplitNode(c, d, row, l, top, p, sib, q);
    }
  }

  lemma SplitNode(c: Caps, d: Disk, row: seq<Address>, l: nat, top: bool, p: nat, sib: Address, q: nat)
    requires CapsOk(c) && RowOk(c, d, row, l, top)
    requires forall q, r :: 0 <= q < |row| && 0 <= r < |row| && q != r ==> row[q] != row[r]
    requires p < |row| && row[p] in d && |d[row[p]].entries| == Cap(c, l)
    requires sib != 0 && sib !in row && q <= |row|
    ensures NodeOk(c, Halved(d, row[p], sib), InsertAt(row, p, sib), l, false, q)
  {
    var row' := InsertAt(row, p, sib);
    var was := if q <= p then q else q - 1;
    assert NodeOk(c, d, row, l, top, was) && NodeOk(c, d, row, l, top, p);
    assert row'[q] == (if q < p then row[q] else if q == p then sib else row[q - 1]);
    if q > 0 {
      assert row'[q - 1] == (if q - 1 < p then row[q - 1] else if q - 1 == p then sib else row[q - 2]);
    }
  }

  lemma SplitFlat(d: Disk, row: seq<Address>, p: nat, sib: Address)
    requires p < |row| && row[p] in d && sib !in row
    requires forall q, r :: 0 <= q < r < |row| ==> row[q] != row[r]
    ensures Flat(Halved(d, row[p], sib), InsertAt(row, p, sib)) == Flat(d, row)
    ensures InsertAt(row, p, sib)[..p] == row[..p]
    ensures Flat(Halved(d, row[p], sib), row[..p]) == Flat(d, row[..p])
  {
    var d', a := Halved(d, row[p], sib), row[p];
    var pre, post := row[..p], row[p + 1..];
    assert InsertAt(row, p, sib) == pre + [sib, a] + post;
    forall q | 0 <= q < |row| && q != p ensures Ents(d', row[q]) == Ents(d, row[q]) {}
    FlatReplace(d, d', row, p, [sib, a]);
    FlatFrame(d, d', pre);
    FlatAt(d, row, p);
    HalvesRejoin(d, a, sib);
  }

  lemma HalvesRejoin(d: Disk, a: Address, sib: Address)
    requires a in d && a != sib
    ensures Flat(Halved(d, a, sib), [sib, a]) == Ents(d, a)
  {
    var d' := Halved(d, a, sib);
    FlatConcat(d', [sib], [a]);
    assert [sib] + [a] == [sib, a];
    FlatOne(d', a);
    FlatOne(d', sib);
    var es := d[a].entries;
    assert es == es[..|es| / 2] + es[|es| / 2..];
  }
}
