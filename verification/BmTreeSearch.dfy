/** What a search hands out: walking back from the place where the key would be, through the chain of leaves. */
module BmTreeSearch {
  import opened BmTreeModel
  import opened BmTreeShape
  import opened BmTreeLocate
  import opened BmTreeOrder
  import opened BmTreeSubtree

  /** Whether the walk back takes an entry. `first` tells the leaf without a predecessor. */
  predicate Wanted(e: Entry, key: int, strict: bool, first: bool) {
    (!strict && (first || e.key <= key)) || e.key == key
  }

  /** What is taken from the first `n` entries of a leaf, the last one first. */
  function Copied(es: seq<Entry>, key: int, n: nat, max: nat, strict: bool, first: bool): (r: seq<Entry>)
    requires n <= |es|
    ensures |r| <= max
    decreases n
  {
    if n == 0 || max == 0 || !Wanted(es[n - 1], key, strict, first) then []
    else [es[n - 1]] + Copied(es, key, n - 1, max - 1, strict, first)
  }

  /** What is taken from the first `n` entries of leaf `p` and, unless that was enough, from all leaves before it. */
  ghost function FoundBack(d: Disk, leaves: seq<Address>, p: nat, n: nat, key: int, max: nat, strict: bool)
          : (r: seq<Entry>)
    requires p < |leaves| && n <= |Ents(d, leaves[p])|
    ensures |r| <= max
    decreases p
  {
    var part := Copied(Ents(d, leaves[p]), key, n, max, strict, p == 0);
    if |part| == max || p == 0 then part
    else part + FoundBack(d, leaves, p - 1, |Ents(d, leaves[p - 1])|, key, max - |part|, strict)
  }

  /** What a search finds that has reached leaf `p`. */
  ghost function FoundFrom(t: Tree, p: nat, key: int, max: nat, strict: bool): (r: (Status, seq<Entry>))
    requires t.levels != [] && p < |t.levels[0]|
  {
    var es := LeafEnts(t, p);
    var i := LeafIndex(es, key);
    if max == 0 then (OK, [])
    else if i == |es| || (strict && |es| == 1 && es[0].key != key) then (NotFound, [])
    else (OK, FoundBack(t.disk, t.levels[0], p, i + 1, key, max, strict))
  }

  /** All entries with `key`, the last one first. */
  function Matching(es: seq<Entry>, key: int): (r: seq<Entry>) {
    if es == [] then []
    else (if es[|es| - 1].key == key then [es[|es| - 1]] else []) + Matching(es[..|es| - 1], key)
  }

  function AtMost<T>(s: seq<T>, max: nat): seq<T> {
    if |s| <= max then s else s[..max]
  }

  lemma RecsBoth(a: seq<Entry>, b: seq<Entry>)
    ensures Recs(a + b) == Recs(a) + Recs(b)
  {}

  // ---- Any tree: only stored entries, each at most once ----

  lemma {:induction false} CopiedSound(es: seq<Entry>, key: int, n: nat, max: nat, strict: bool, first: bool)
    requires n <= |es|
    ensures multiset(Copied(es, key, n, max, strict, first)) <= multiset(es[..n])
    decreases n
  {
    if n > 0 && max > 0 && Wanted(es[n - 1], key, strict, first) {
      CopiedSound(es, key, n - 1, max - 1, strict, first);
      assert es[..n] == es[..n - 1] + [es[n - 1]];
      AddBoth(multiset{es[n - 1]}, multiset{es[n - 1]},
              multiset(Copied(es, key, n - 1, max - 1, strict, first)), multiset(es[..n - 1]));
    }
  }

  lemma {:induction false} CopiedKeys(es: seq<Entry>, key: int, n: nat, max: nat, first: bool)
    requires n <= |es|
    ensures forall e :: e in Copied(es, key, n, max, true, first) ==> e.key == key
    decreases n
  {
    if n > 0 && max > 0 && es[n - 1].key == key {
      CopiedKeys(es, key, n - 1, max - 1, first);
    }
  }

  lemma AddLeft<T>(a: multiset<T>, b: multiset<T>, c: multiset<T>)
    requires a <= b
    ensures a <= c + b
  {
    forall x ensures a[x] <= (c + b)[x] {}
  }

  lemma AddBoth<T>(a: multiset<T>, b: multiset<T>, c: multiset<T>, e: multiset<T>)
    requires a <= b && c <= e
    ensures a + c <= e + b
  {
    forall x ensures (a + c)[x] <= (e + b)[x] {}
  }

  lemma {:induction false} FoundSound(d: Disk, leaves: seq<Address>, p: nat, n: nat, key: int, max: nat, strict: bool)
    requires p < |leaves| && n <= |Ents(d, leaves[p])|
    ensures multiset(FoundBack(d, leaves, p, n, key, max, strict))
         <= multiset(Flat(d, leaves[..p]) + Ents(d, leaves[p])[..n])
    decreases p
  {
    hide Flat, Copied, Ents;
    var es, before := Ents(d, leaves[p]), Flat(d, leaves[..p]);
    var part := Copied(es, key, n, max, strict, p == 0);
    CopiedSound(es, key, n, max, strict, p == 0);
    if |part| == max || p == 0 {
      AddLeft(multiset(part), multiset(es[..n]), multiset(before));
    } else {
      var prev := Ents(d, leaves[p - 1]);
      var more := FoundBack(d, leaves, p - 1, |prev|, key, max - |part|, strict);
      FoundSound(d, leaves, p - 1, |prev|, key, max - |part|, strict);
      FlatAt(d, leaves, p - 1);
      assert prev[..|prev|] == prev;
      AddBoth(multiset(part), multiset(es[..n]), multiset(more), multiset(before));
    }
  }

  lemma {:induction false} FoundKeys(d: Disk, leaves: seq<Address>, p: nat, n: nat, key: int, max: nat)
    requires p < |leaves| && n <= |Ents(d, leaves[p])|
    ensures forall e :: e in FoundBack(d, leaves, p, n, key, max, true) ==> e.key == key
    decreases p
  {
    var part := Copied(Ents(d, leaves[p]), key, n, max, true, p == 0);
    CopiedKeys(Ents(d, leaves[p]), key, n, max, p == 0);
    if |part| < max && p > 0 {
      FoundKeys(d, leaves, p - 1, |Ents(d, leaves[p - 1])|, key, max - |part|);
    }
  }

  // ---- An ordered tree: exactly the entries with the key ----

  lemma Regroup<T>(a: seq<T>, b: seq<T>, c: seq<T>)
    ensures a + b + c == a + (b + c)
  {}

  lemma MatchingStep(es: seq<Entry>, key: int)
    requires es != []
    ensures var e := es[|es| - 1];
            Matching(es, key) == (if e.key == key then [e] else []) + Matching(es[..|es| - 1], key)
  {}

  lemma {:induction false} MatchingConcat(a: seq<Entry>, b: seq<Entry>, key: int)
    ensures Matching(a + b, key) == Matching(b, key) + Matching(a, key)
  {
    hide Matching;
    if b == [] {
      assert a + b == a;
      MatchingNone(b, key);
    } else {
      var all, rest, e := a + b, b[..|b| - 1], b[|b| - 1];
      MatchingConcat(a, rest, key);
      MatchingStep(all, key);
      MatchingStep(b, key);
      assert all[..|all| - 1] == a + rest;
      Regroup(if e.key == key then [e] else [], Matching(rest, key), Matching(a, key));
    }
  }

  lemma {:induction false} MatchingNone(es: seq<Entry>, key: int)
    requires forall i :: 0 <= i < |es| ==> es[i].key != key
    ensures Matching(es, key) == []
  {
    if es != [] {
      MatchingNone(es[..|es| - 1], key);
    }
  }

  /** Not finding a key means that it is not there. */
  lemma {:induction false} MatchingAll(es: seq<Entry>, key: int)
    ensures multiset(Matching(es, key)) <= multiset(es)
    ensures forall e :: e in Matching(es, key) <==> e in es && e.key == key
  {
    if es != [] {
      var n := |es| - 1;
      MatchingAll(es[..n], key);
      assert es == es[..n] + [es[n]];
    }
  }

  lemma AtMostConcat<T>(a: seq<T>, b: seq<T>, max: nat)
    ensures AtMost(a + b, max) == if |a| >= max then AtMost(a, max) else a + AtMost(b, max - |a|)
  {}

  lemma {:induction false} CopiedExact(es: seq<Entry>, key: int, n: nat, max: nat, first: bool)
    requires n <= |es| && Sorted(es) && forall i :: 0 <= i < n ==> es[i].key <= key
    ensures Copied(es, key, n, max, true, first) == AtMost(Matching(es[..n], key), max)
    decreases n
  {
    if n > 0 && max > 0 {
      assert es[..n][..n - 1] == es[..n - 1];
      if es[n - 1].key == key {
        CopiedExact(es, key, n - 1, max - 1, first);
        AtMostConcat([es[n - 1]], Matching(es[..n - 1], key), max);
      } else {
        forall i | 0 <= i < n ensures es[i].key != key {
          assert es[i].key <= es[n - 1].key;
        }
        MatchingNone(es[..n], key);
      }
    }
  }

  ghost predicate NoneAbove(t: Tree, p: nat, n: nat, key: int)
    requires t.levels != []
  {
    n <= |LeafEnts(t, p)| && forall i :: 0 <= i < n ==> LeafEnts(t, p)[i].key <= key
  }

  lemma SortedThere(t: Tree, p: nat)
    requires t.levels != [] && p < |t.levels[0]| && LeavesOk(t)
    ensures Sorted(LeafEnts(t, p))
  {
    assert LeafOk(t, p);
  }

  lemma {:induction false} FoundExact(t: Tree, p: nat, n: nat, key: int, max: nat)
    requires t.levels != [] && p < |t.levels[0]| && LeavesOk(t) && NoneAbove(t, p, n, key)
    requires forall x :: 0 <= x < p ==> NoneAbove(t, x, |LeafEnts(t, x)|, key)
    ensures FoundBack(t.disk, t.levels[0], p, n, key, max, true)
         == AtMost(Matching(Flat(t.disk, t.levels[0][..p]) + LeafEnts(t, p)[..n], key), max)
    decreases p
  {
    hide Flat, Matching, Copied, LeafOk;
    var leaves, es := t.levels[0], LeafEnts(t, p);
    SortedThere(t, p);
    CopiedExact(es, key, n, max, p == 0);
    MatchingConcat(Flat(t.disk, leaves[..p]), es[..n], key);
    var part := Copied(es, key, n, max, true, p == 0);
    AtMostConcat(Matching(es[..n], key), Matching(Flat(t.disk, leaves[..p]), key), max);
    if p == 0 {
      FlatNone(t.disk);
      MatchingNone([], key);
      assert leaves[..0] == [];
    } else {
      var before := LeafEnts(t, p - 1);
      assert before[..|before|] == before;
      FlatAt(t.disk, leaves, p - 1);
      FoundExact(t, p - 1, |before|, key, max - |part|);
    }
  }

  /** In an ordered tree nothing before the leaf reached is above the key, and nothing after it is not. */
  lemma BeforeTarget(c: Caps, t: Tree, p: nat, key: int, x: nat)
    requires Ready(c, t, 0) && Ordered(t) && p < |t.levels[0]| && Routed(t, 0, p, key) && x < |t.levels[0]|
    ensures x < p ==> NoneAbove(t, x, |LeafEnts(t, x)|, key) && Sep(t, 0, x) <= Sep(t, 0, p - 1)
    ensures x > p ==> forall i :: 0 <= i < |LeafEnts(t, x)| ==> key < LeafEnts(t, x)[i].key
  {
    hide Blocks, BlocksOk, Shape, Flat;
    assert LeafOk(t, x);
    if x != p {
      assert |t.levels| > 1 by { NodeFacts(c, t, 0, 0); }
      assert OrderedAt(t, 1);
      RowLength(c, t, 1);
    }
  }

  lemma {:induction false} MatchingBefore(c: Caps, t: Tree, p: nat, key: int, x: nat)
    requires Ready(c, t, 0) && Ordered(t) && p < |t.levels[0]| && Routed(t, 0, p, key) && p < x <= |t.levels[0]|
    ensures Matching(Flat(t.disk, t.levels[0][..x]), key) == Matching(Flat(t.disk, t.levels[0][..p + 1]), key)
    decreases x
  {
    hide Flat, Shape, Blocks, BlocksOk, OrderedUp, LeavesOk, Matching;
    if x > p + 1 {
      MatchingBefore(c, t, p, key, x - 1);
      FlatAt(t.disk, t.levels[0], x - 1);
      BeforeTarget(c, t, p, key, x - 1);
      MatchingNone(LeafEnts(t, x - 1), key);
      MatchingConcat(Flat(t.disk, t.levels[0][..x - 1]), LeafEnts(t, x - 1), key);
    }
  }

  lemma {:induction false} TargetRouted(c: Caps, t: Tree, l: nat, p: nat, key: int)
    requires Ready(c, t, 0) && Ordered(t) && l < |t.levels| && p < |t.levels[l]| && Routed(t, l, p, key)
    ensures LeafOf(t, l, p, key) < |t.levels[0]| && Routed(t, 0, LeafOf(t, l, p, key), key)
    decreases l
  {
    hide Routed, Shape, Blocks, BlocksOk, LeavesOk, OrderedAt;
    if l > 0 {
      assert OrderedAt(t, l);
      RouteStep(c, t, l, p, key);
      StepInRow(c, t, l, p, RouteFrom(Node(t, l, p).entries, key, 0));
      TargetRouted(c, t, l - 1, Before(t, l, p) + RouteFrom(Node(t, l, p).entries, key, 0), key);
    }
  }

  lemma TargetReached(c: Caps, t: Tree, key: int)
    requires Ready(c, t, 0) && Ordered(t)
    ensures Target(t, key) < |t.levels[0]| && Routed(t, 0, Target(t, key), key)
  {
    TopView(c, t);
    TargetRouted(c, t, |t.levels| - 1, 0, key);
  }

  lemma StepInRow(c: Caps, t: Tree, l: nat, p: nat, i: nat)
    requires Ready(c, t, 0) && 0 < l < |t.levels| && p < |t.levels[l]| && i < |Ents(t.disk, t.levels[l][p])|
    ensures Before(t, l, p) + i < |t.levels[l - 1]|
  {
    RowLength(c, t, l);
    EntryInRow(t, l, p);
  }

  /** Every search ends in some leaf. */
  lemma {:induction false} TargetInRow(c: Caps, t: Tree, l: nat, p: nat, key: int)
    requires Ready(c, t, 0) && l < |t.levels| && p < |t.levels[l]|
    ensures LeafOf(t, l, p, key) < |t.levels[0]|
    decreases l
  {
    hide Shape, Blocks, BlocksOk;
    if l > 0 {
      UpperReady(c, t, l);
      NodeFacts(c, t, l, p);
      StepInRow(c, t, l, p, RouteFrom(Ents(t.disk, t.levels[l][p]), key, 0));
      TargetInRow(c, t, l - 1, Before(t, l, p) + RouteFrom(Ents(t.disk, t.levels[l][p]), key, 0), key);
    }
  }

  /** A strict search of an ordered tree finds every entry with the key, the last ones first. */
  lemma StrictSearchExact(c: Caps, t: Tree, key: int, max: nat)
    requires Ready(c, t, 0) && Ordered(t)
    ensures Target(t, key) < |t.levels[0]|
    ensures var r := FoundFrom(t, Target(t, key), key, max, true);
            && r.1 == AtMost(Matching(Row(t, 0), key), max)
            && (r.0 == NotFound ==> Matching(Row(t, 0), key) == [])
  {
    TargetReached(c, t, key);
    StrictFromLeaf(c, t, Target(t, key), key, max);
  }

  lemma StrictFromLeaf(c: Caps, t: Tree, p: nat, key: int, max: nat)
    requires Ready(c, t, 0) && Ordered(t) && p < |t.levels[0]| && Routed(t, 0, p, key)
    ensures var r := FoundFrom(t, p, key, max, true);
            && r.1 == AtMost(Matching(Row(t, 0), key), max)
            && (r.0 == NotFound ==> Matching(Row(t, 0), key) == [])
  {
    hide Flat, Shape, Blocks, BlocksOk, Matching, OrderedAt, Routed, FoundBack, LeafIndex, Sorted;
    assert LeafOk(t, p);
    var es, i, before := LeafEnts(t, p), LeafIndex(LeafEnts(t, p), key), Flat(t.disk, t.levels[0][..p]);
    MatchingUpTo(c, t, p, key);
    forall x | 0 <= x < p ensures NoneAbove(t, x, |LeafEnts(t, x)|, key) {
      BeforeTarget(c, t, p, key, x);
    }
    if i == |es| {
      assert AllBelow(t, p, key);
      AllBelowKey(c, t, p, key);
      return;
    }
    LeafIndexAround(es, key);
    if |es| == 1 && es[0].key != key {
      OneLeaf(c, t, p);
      FlatNone(t.disk);
      assert t.levels[0][..0] == [] && before + es == es;
      MatchingNone(es, key);
      return;
    }
    var n := if es[i].key == key then i + 1 else 0;
    StartBelow(t, p, i, key, max);
    FoundExact(t, p, n, key, max);
    MatchingNone(es[n..], key);
    MatchingConcat(before + es[..n], es[n..], key);
    assert before + es[..n] + es[n..] == before + es;
  }

  lemma OneLeaf(c: Caps, t: Tree, p: nat)
    requires Ready(c, t, 0) && p < |t.levels[0]| && |LeafEnts(t, p)| == 1
    ensures p == 0 && |t.levels[0]| == 1
  {
    NodeFacts(c, t, 0, p);
  }

  lemma OneEntry(c: Caps, t: Tree, p: nat, key: int, max: nat, strict: bool)
    requires Ready(c, t, 0) && p < |t.levels[0]| && |LeafEnts(t, p)| == 1 && max > 0
    requires var e := LeafEnts(t, p)[0]; if strict then e.key == key else key <= e.key
    ensures FoundFrom(t, p, key, max, strict) == (OK, [LeafEnts(t, p)[0]])
  {
    OneLeaf(c, t, p);
    var es := LeafEnts(t, p);
    assert LeafIndex(es, key) == 0;
    assert Copied(es, key, 1, max, strict, true) == [es[0]] + Copied(es, key, 0, max - 1, strict, true);
    assert FoundBack(t.disk, t.levels[0], p, 1, key, max, strict) == Copied(es, key, 1, max, strict, true);
    assert [es[0]] + [] == [es[0]];
  }

  lemma PartInWhole(before: seq<Entry>, es: seq<Entry>, n: nat, after: seq<Entry>)
    requires n <= |es|
    ensures multiset(before + es[..n]) <= multiset(before + es + after)
  {
    assert before + es + after == (before + es[..n]) + (es[n..] + after);
  }

  lemma FoundWhole(c: Caps, t: Tree, p: nat, key: int, max: nat, strict: bool)
    requires t.levels != [] && p < |t.levels[0]|
    ensures var found := FoundFrom(t, p, key, max, strict).1;
            && multiset(found) <= multiset(Row(t, 0))
            && (strict ==> forall e :: e in found ==> e.key == key)
  {
    hide Flat, FoundBack, LeafIndex;
    var es, i := LeafEnts(t, p), LeafIndex(LeafEnts(t, p), key);
    if i < |es| {
      FoundInRow(t, p, i + 1, key, max, strict);
      if strict { FoundKeys(t.disk, t.levels[0], p, i + 1, key, max); }
    }
  }

  lemma FoundInRow(t: Tree, p: nat, n: nat, key: int, max: nat, strict: bool)
    requires t.levels != [] && p < |t.levels[0]| && n <= |LeafEnts(t, p)|
    ensures multiset(FoundBack(t.disk, t.levels[0], p, n, key, max, strict)) <= multiset(Row(t, 0))
  {
    hide Flat, FoundBack;
    var before, after := Flat(t.disk, t.levels[0][..p]), Flat(t.disk, t.levels[0][p + 1..]);
    FoundSound(t.disk, t.levels[0], p, n, key, max, strict);
    FlatAt(t.disk, t.levels[0], p);
    PartInWhole(before, LeafEnts(t, p), n, after);
    Through(multiset(FoundBack(t.disk, t.levels[0], p, n, key, max, strict)),
            multiset(before + LeafEnts(t, p)[..n]), multiset(Row(t, 0)));
  }

  lemma Through<T>(a: multiset<T>, b: multiset<T>, c: multiset<T>)
    requires a <= b <= c
    ensures a <= c
  {}

  /** The walk back from an entry above the key takes nothing in that leaf. */
  lemma StartBelow(t: Tree, p: nat, i: nat, key: int, max: nat)
    requires t.levels != [] && p < |t.levels[0]| && i < |LeafEnts(t, p)|
    ensures LeafEnts(t, p)[i].key != key ==>
              FoundBack(t.disk, t.levels[0], p, i + 1, key, max, true)
              == FoundBack(t.disk, t.levels[0], p, 0, key, max, true)
  {}

  lemma MatchingUpTo(c: Caps, t: Tree, p: nat, key: int)
    requires Ready(c, t, 0) && Ordered(t) && p < |t.levels[0]| && Routed(t, 0, p, key)
    ensures Matching(Row(t, 0), key) == Matching(Flat(t.disk, t.levels[0][..p]) + LeafEnts(t, p), key)
  {
    MatchingBefore(c, t, p, key, |t.levels[0]|);
    assert t.levels[0][..|t.levels[0]|] == t.levels[0];
    FlatAt(t.disk, t.levels[0], p);
  }

  /** Where a key is looked for in a leaf: at its last occurrence, or where it would be. */
  lemma LeafIndexAround(es: seq<Entry>, key: int)
    requires Sorted(es) && LeafIndex(es, key) < |es|
    ensures var i := LeafIndex(es, key);
            && (forall j :: 0 <= j < i ==> es[j].key <= key)
            && (forall j :: i < j < |es| ==> key < es[j].key)
            && (es[i].key != key ==> forall j :: 0 <= j < |es| ==> es[j].key != key)
  {
    var i := CeilFrom(es, key, 0);
    var r := LastEqual(es, key, i);
    if r > i {
      assert es[i].key <= es[r].key == key;
    }
    if r < |es| - 1 {
      assert es[r + 1].key != key && es[r].key <= es[r + 1].key;
    }
  }

  ghost predicate AllBelow(t: Tree, p: nat, key: int)
    requires t.levels != []
  {
    forall i :: 0 <= i < |LeafEnts(t, p)| ==> LeafEnts(t, p)[i].key < key
  }

  /** A leaf is all below a key: then so is everything before it. */
  lemma AllBelowKey(c: Caps, t: Tree, p: nat, key: int)
    requires Ready(c, t, 0) && Ordered(t) && p < |t.levels[0]| && AllBelow(t, p, key)
    ensures Matching(Flat(t.disk, t.levels[0][..p]) + LeafEnts(t, p), key) == []
  {
    hide Flat, Shape, Blocks, BlocksOk, Matching, LeafOk, OrderedAt;
    var es := LeafEnts(t, p);
    MatchingNone(es, key);
    MatchingConcat(Flat(t.disk, t.levels[0][..p]), es, key);
    NoMatchBefore(c, t, p, key, p);
  }

  lemma {:induction false} NoMatchBefore(c: Caps, t: Tree, p: nat, key: int, x: nat)
    requires Ready(c, t, 0) && Ordered(t) && x <= p < |t.levels[0]| && AllBelow(t, p, key)
    ensures Matching(Flat(t.disk, t.levels[0][..x]), key) == []
    decreases x
  {
    hide Flat, Shape, Blocks, BlocksOk, Matching, LeafOk, OrderedAt;
    if x == 0 {
      FlatNone(t.disk);
      MatchingNone([], key);
      assert t.levels[0][..0] == [];
    } else {
      NoMatchBefore(c, t, p, key, x - 1);
      FlatAt(t.disk, t.levels[0], x - 1);
      BelowKey(c, t, p, key, x - 1);
      MatchingNone(LeafEnts(t, x - 1), key);
      MatchingConcat(Flat(t.disk, t.levels[0][..x - 1]), LeafEnts(t, x - 1), key);
    }
  }

  lemma BelowKey(c: Caps, t: Tree, p: nat, key: int, x: nat)
    requires Ready(c, t, 0) && Ordered(t) && x < p < |t.levels[0]| && AllBelow(t, p, key)
    ensures AllBelow(t, x, key)
  {
    hide Flat, Shape, Blocks, BlocksOk, Sorted;
    NodeFacts(c, t, 0, p);
    assert LeafOk(t, x) && LeafOk(t, p) && OrderedAt(t, 1);
    RowLength(c, t, 1);
    assert LeafEnts(t, p)[0].key < key;
  }

  // ---- The search for the least key that is not below the one asked for ----

  lemma {:induction false} EntryPlace(d: Disk, row: seq<Address>, e: Entry) returns (x: nat, i: nat)
    requires e in Flat(d, row)
    ensures x < |row| && i < |Ents(d, row[x])| && Ents(d, row[x])[i] == e
  {
    if e in Ents(d, row[0]) {
      x := 0;
      i :| i < |Ents(d, row[0])| && Ents(d, row[0])[i] == e;
    } else {
      x, i := EntryPlace(d, row[1..], e);
      x := x + 1;
    }
  }

  ghost predicate Stored(t: Tree, key: int)
    requires t.levels != []
  {
    Matching(Row(t, 0), key) != []
  }

  /** The key of `e` is the least one of the tree that is not below `key`. */
  ghost predicate IsCeiling(t: Tree, e: Entry, key: int)
    requires t.levels != []
  {
    key <= e.key && forall x :: x in Row(t, 0) && key <= x.key ==> e.key <= x.key
  }

  /** What a search that is not strict answers in an ordered tree that reached leaf `p`. */
  ghost function LooseHit(t: Tree, p: nat, key: int): Entry
    requires t.levels != [] && LeafIndex(LeafEnts(t, p), key) < |LeafEnts(t, p)|
  {
    var e := LeafEnts(t, p)[LeafIndex(LeafEnts(t, p), key)];
    if p == 0 || e.key == key || LeafEnts(t, p - 1) == [] then e else LeafEnts(t, p - 1)[|LeafEnts(t, p - 1)| - 1]
  }

  lemma LooseFound(c: Caps, t: Tree, p: nat, key: int)
    requires Ready(c, t, 0) && Ordered(t) && p < |t.levels[0]| && Routed(t, 0, p, key)
    requires LeafIndex(LeafEnts(t, p), key) < |LeafEnts(t, p)|
    ensures FoundFrom(t, p, key, 1, false) == (OK, [LooseHit(t, p, key)])
  {
    hide Flat, Shape, Blocks, BlocksOk, LeafIndex, OrderedAt;
    var i := LeafIndex(LeafEnts(t, p), key);
    OneFound(t, p, i + 1, key);
    if p > 0 {
      BeforeTarget(c, t, p, key, p - 1);
      NodeFacts(c, t, 0, p - 1);
      OneFound(t, p - 1, |LeafEnts(t, p - 1)|, key);
    }
  }

  lemma OneFound(t: Tree, p: nat, n: nat, key: int)
    requires t.levels != [] && p < |t.levels[0]| && 0 < n <= |LeafEnts(t, p)|
    ensures var e := LeafEnts(t, p)[n - 1]; var r := FoundBack(t.disk, t.levels[0], p, n, key, 1, false);
            if p == 0 || e.key <= key then r == [e]
            else r == FoundBack(t.disk, t.levels[0], p - 1, |LeafEnts(t, p - 1)|, key, 1, false)
  {}

  /** The answer is the ceiling exactly when the key is stored or the leaf reached is the first one. */
  lemma LooseSearchExact(c: Caps, t: Tree, key: int)
    requires Ready(c, t, 0) && Ordered(t)
    ensures Target(t, key) < |t.levels[0]|
    ensures var p, r := Target(t, key), FoundFrom(t, Target(t, key), key, 1, false);
            && (r.0 == NotFound <==> AllBelow(t, p, key))
            && (r.0 != NotFound ==> |r.1| == 1 && (IsCeiling(t, r.1[0], key) <==> p == 0 || Stored(t, key)))
            && (r.0 != NotFound ==> (IsCeiling(t, r.1[0], key) <==> key <= r.1[0].key))
  {
    hide Flat, Shape, Blocks, BlocksOk, LeafIndex, OrderedAt, LeafOk, FoundBack, Stored, LooseHit, Routed;
    TargetReached(c, t, key);
    var p := Target(t, key);
    if LeafIndex(LeafEnts(t, p), key) < |LeafEnts(t, p)| {
      LooseFound(c, t, p, key);
      LooseCeiling(c, t, p, key);
      LooseFloor(c, t, p, key);
    }
  }

  /** Where the answer is not below the key, no other entry of the tree comes between. */
  lemma LooseCeiling(c: Caps, t: Tree, p: nat, key: int)
    requires Ready(c, t, 0) && Ordered(t) && p < |t.levels[0]| && Routed(t, 0, p, key)
    requires LeafIndex(LeafEnts(t, p), key) < |LeafEnts(t, p)|
    ensures key <= LooseHit(t, p, key).key ==> IsCeiling(t, LooseHit(t, p, key), key)
  {
    hide Flat, Shape, Blocks, BlocksOk, LeafIndex, OrderedAt, Routed;
    var e := LooseHit(t, p, key);
    forall x | x in Row(t, 0) && key <= x.key <= e.key ensures e.key <= x.key {
      var k, i := EntryPlace(t.disk, t.levels[0], x);
      NearCeiling(c, t, p, key, k, i);
    }
  }

  lemma NearCeiling(c: Caps, t: Tree, p: nat, key: int, k: nat, i: nat)
    requires Ready(c, t, 0) && Ordered(t) && p < |t.levels[0]| && Routed(t, 0, p, key)
    requires LeafIndex(LeafEnts(t, p), key) < |LeafEnts(t, p)|
    requires k < |t.levels[0]| && i < |LeafEnts(t, k)| && key <= LeafEnts(t, k)[i].key
    ensures key <= LooseHit(t, p, key).key ==> LooseHit(t, p, key).key <= LeafEnts(t, k)[i].key
  {
    hide Flat, Shape, Blocks, BlocksOk, LeafIndex, OrderedAt, Routed;
    assert LeafOk(t, p) && LeafOk(t, k);
    LeafIndexAround(LeafEnts(t, p), key);
    if p > 0 {
      BeforeTarget(c, t, p, key, p - 1);
      NodeFacts(c, t, 0, p - 1);
    }
    BeforeTarget(c, t, p, key, k);
    if p < k { AfterLeaf(c, t, p, k); }
  }

  lemma AfterLeaf(c: Caps, t: Tree, p: nat, k: nat)
    requires Ready(c, t, 0) && Ordered(t) && p < k < |t.levels[0]|
    ensures forall i, j :: 0 <= i < |LeafEnts(t, p)| && 0 <= j < |LeafEnts(t, k)| ==>
              LeafEnts(t, p)[i].key <= LeafEnts(t, k)[j].key
  {
    hide Flat, Shape, Blocks, BlocksOk, Sorted;
    assert LeafOk(t, p) && LeafOk(t, k) && OrderedAt(t, 1) by { NodeFacts(c, t, 0, 0); }
    RowLength(c, t, 1);
    assert Sep(t, 0, p) <= Sep(t, 0, k - 1);
  }

  /** A stored key is the answer's, and without one only the first leaf answers from above. */
  lemma LooseFloor(c: Caps, t: Tree, p: nat, key: int)
    requires Ready(c, t, 0) && Ordered(t) && p < |t.levels[0]| && Routed(t, 0, p, key)
    requires LeafIndex(LeafEnts(t, p), key) < |LeafEnts(t, p)|
    ensures key <= LooseHit(t, p, key).key <==> p == 0 || Stored(t, key)
  {
    hide Flat, Shape, Blocks, BlocksOk, LeafIndex, OrderedAt, Matching, Routed;
    var es, i := LeafEnts(t, p), LeafIndex(LeafEnts(t, p), key);
    assert LeafOk(t, p);
    LeafIndexAround(es, key);
    MatchingUpTo(c, t, p, key);
    MatchingConcat(Flat(t.disk, t.levels[0][..p]), es, key);
    if es[i].key == key {
      MatchingAll(es, key);
      assert es[i] in Matching(es, key);
    } else if p > 0 {
      MatchingNone(es, key);
      LooseInPrevious(c, t, p, key);
    }
  }

  lemma LooseInPrevious(c: Caps, t: Tree, p: nat, key: int)
    requires Ready(c, t, 0) && Ordered(t) && 0 < p < |t.levels[0]| && Routed(t, 0, p, key)
    ensures var es := LeafEnts(t, p - 1);
            es != [] && (key <= es[|es| - 1].key <==> Matching(Flat(t.disk, t.levels[0][..p]), key) != [])
  {
    hide Flat, Shape, Blocks, BlocksOk, OrderedAt, Matching, Routed;
    var es := LeafEnts(t, p - 1);
    assert LeafOk(t, p - 1);
    BeforeTarget(c, t, p, key, p - 1);
    NodeFacts(c, t, 0, p - 1);
    FlatAt(t.disk, t.levels[0], p - 1);
    if key <= es[|es| - 1].key {
      MatchingConcat(Flat(t.disk, t.levels[0][..p - 1]), es, key);
      MatchingAll(es, key);
      assert es[|es| - 1] in Matching(es, key);
    } else {
      AllBelowKey(c, t, p - 1, key);
    }
  }

  lemma ReverseStep(es: seq<Entry>, n: nat)
    requires 0 < n <= |es|
    ensures Reverse(es[..n]) == [es[n - 1]] + Reverse(es[..n - 1])
  {}

  /** In a tree that has not split yet, the whole walk back is in one leaf. */
  lemma {:induction false} OneLeafLoose(es: seq<Entry>, key: int, n: nat, max: nat)
    requires n <= |es|
    ensures Copied(es, key, n, max, false, true) == AtMost(Reverse(es[..n]), max)
    decreases n
  {
    if n > 0 && max > 0 {
      OneLeafLoose(es, key, n - 1, max - 1);
      ReverseStep(es, n);
      AtMostConcat([es[n - 1]], Reverse(es[..n - 1]), max);
    }
  }

  // ---- Which stored keys a removal finds ----

  /** The key separates the leaf it is looked for in from the one before it, where its only entries are. */
  ghost predicate BehindSeparator(t: Tree, p: nat, key: int)
    requires t.levels != []
  {
    p > 0 && key == Sep(t, 0, p - 1) && forall i :: 0 <= i < |LeafEnts(t, p)| ==> key < LeafEnts(t, p)[i].key
  }

  /** A strict removal from an ordered tree finds a stored key exactly when it is not behind its separator. */
  lemma StrictRemovalExact(c: Caps, t: Tree, key: int)
    requires Ready(c, t, 0) && Ordered(t)
    ensures var p := Target(t, key);
            p < |t.levels[0]| && (Holds(t, p, key, true) <==> Stored(t, key) && !BehindSeparator(t, p, key))
  {
    hide Flat, Shape, Blocks, BlocksOk, OrderedAt, Matching, LeafIndex;
    TargetReached(c, t, key);
    var p := Target(t, key);
    var es := LeafEnts(t, p);
    assert LeafOk(t, p);
    MatchingUpTo(c, t, p, key);
    MatchingConcat(Flat(t.disk, t.levels[0][..p]), es, key);
    MatchingAll(es, key);
    if Holds(t, p, key, true) {
      assert es[StrictFrom(es, key, 0)] in Matching(es, key);
    } else {
      StrictFromNone(es, key, 0);
      MatchingNone(es, key);
      if Stored(t, key) {
        StoredBefore(c, t, p, key);
      }
    }
  }

  lemma {:induction false} StrictFromNone(es: seq<Entry>, key: int, i: nat)
    requires i <= |es| && StrictFrom(es, key, i) == |es|
    ensures forall j :: i <= j < |es| ==> es[j].key != key
  {}

  /** A key found only before the leaf it is looked for in is that leaf's left separator. */
  lemma StoredBefore(c: Caps, t: Tree, p: nat, key: int)
    requires Ready(c, t, 0) && Ordered(t) && p < |t.levels[0]| && Routed(t, 0, p, key)
    requires Matching(Flat(t.disk, t.levels[0][..p]), key) != []
    requires forall i :: 0 <= i < |LeafEnts(t, p)| ==> LeafEnts(t, p)[i].key != key
    ensures BehindSeparator(t, p, key)
  {
    hide Flat, Shape, Blocks, BlocksOk, OrderedAt, Matching, LeafIndex;
    FlatNone(t.disk);
    assert t.levels[0][..0] == [];
    if p == 0 {
      MatchingNone([], key);
    } else {
      LooseInPrevious(c, t, p, key);
      assert LeafOk(t, p - 1) && LeafOk(t, p);
    }
  }

  /** Something is stored under `key` or above. */
  ghost predicate StoredFrom(t: Tree, key: int)
    requires t.levels != []
  {
    exists e :: e in Row(t, 0) && key <= e.key
  }

  /**
   A removal that is not strict, from an ordered tree: it takes the least entry from the key upwards unless the key is
   stored behind its separator only; and it finds nothing although there is something from the key upwards exactly when
   the leaf it looks into is all below the key and is not the last one.
   */
  lemma LooseRemovalExact(c: Caps, t: Tree, key: int)
    requires Ready(c, t, 0) && Ordered(t)
    ensures var p := Target(t, key); var es := LeafEnts(t, p); var i := TakeIndex(es, key, false);
      && p < |t.levels[0]|
      && (Holds(t, p, key, false) ==>
            (IsCeiling(t, es[i], key) <==> !(Stored(t, key) && BehindSeparator(t, p, key))))
      && (!Holds(t, p, key, false) && StoredFrom(t, key) <==>
            p + 1 < |t.levels[0]| && forall j :: 0 <= j < |es| ==> es[j].key < key)
  {
    hide Flat, LevelOk, Blocks, BlocksOk, OrderedAt, Matching, LeafIndex, IsCeiling, Stored, BehindSeparator, Routed;
    TargetReached(c, t, key);
    var p := Target(t, key);
    if Holds(t, p, key, false) {
      TakenCeiling(c, t, p, key);
    } else {
      NothingHere(c, t, p, key);
    }
  }

  lemma TakenCeiling(c: Caps, t: Tree, p: nat, key: int)
    requires Ready(c, t, 0) && Ordered(t) && p < |t.levels[0]| && Routed(t, 0, p, key) && Holds(t, p, key, false)
    ensures IsCeiling(t, LeafEnts(t, p)[LeafIndex(LeafEnts(t, p), key)], key)
       <==> !(Stored(t, key) && BehindSeparator(t, p, key))
  {
    hide Flat, LevelOk, Blocks, BlocksOk, OrderedAt, Matching, LeafIndex, Ordered;
    var es := LeafEnts(t, p);
    var e := es[LeafIndex(es, key)];
    SortedLeafOf(t, p);
    LeafIndexAround(es, key);
    MatchingAll(Row(t, 0), key);
    if e.key != key {
      if Stored(t, key) {
        MatchingUpTo(c, t, p, key);
        MatchingConcat(Flat(t.disk, t.levels[0][..p]), es, key);
        MatchingNone(es, key);
        StoredBefore(c, t, p, key);
        assert Matching(Row(t, 0), key)[0] in Matching(Row(t, 0), key);
      } else {
        forall x | x in Row(t, 0) && key <= x.key ensures e.key <= x.key {
          NotTheKey(t, key, x);
          FirstAbove(c, t, p, key, x);
        }
      }
    }
  }

  lemma NotTheKey(t: Tree, key: int, x: Entry)
    requires t.levels != [] && !Stored(t, key) && x in Row(t, 0)
    ensures x.key != key
  {
    MatchingAll(Row(t, 0), key);
  }

  lemma SortedLeafOf(t: Tree, p: nat)
    requires Ordered(t) && p < |t.levels[0]|
    ensures Sorted(LeafEnts(t, p))
  {
    assert LeafOk(t, p);
  }

  /** No entry above the key comes before the one at the leaf index. */
  lemma FirstAbove(c: Caps, t: Tree, p: nat, key: int, x: Entry)
    requires Ready(c, t, 0) && Ordered(t) && p < |t.levels[0]| && Routed(t, 0, p, key) && Holds(t, p, key, false)
    requires x in Row(t, 0) && key < x.key
    ensures LeafEnts(t, p)[LeafIndex(LeafEnts(t, p), key)].key <= x.key
  {
    hide Flat, LevelOk, Blocks, BlocksOk, OrderedAt, LeafIndex, Ordered, Routed;
    var k, i := EntryPlace(t.disk, t.levels[0], x);
    assert LeafEnts(t, k)[i] == x;
    BeforeTarget(c, t, p, key, k);
    if k > p {
      AfterLeaf(c, t, p, k);
    } else if k == p {
      SortedLeafOf(t, p);
      LeafIndexAround(LeafEnts(t, p), key);
    }
  }

  lemma NothingHere(c: Caps, t: Tree, p: nat, key: int)
    requires Ready(c, t, 0) && Ordered(t) && p < |t.levels[0]| && Routed(t, 0, p, key) && !Holds(t, p, key, false)
    ensures forall j :: 0 <= j < |LeafEnts(t, p)| ==> LeafEnts(t, p)[j].key < key
    ensures StoredFrom(t, key) <==> p + 1 < |t.levels[0]|
  {
    hide Flat, LevelOk, Blocks, BlocksOk, OrderedAt, Matching, LeafIndex, Ordered, Routed;
    var es := LeafEnts(t, p);
    if p + 1 < |t.levels[0]| {
      BeforeTarget(c, t, p, key, p + 1);
      FirstOfLeaf(c, t, p + 1);
    } else if StoredFrom(t, key) {
      var x :| x in Row(t, 0) && key <= x.key;
      var k, i := EntryPlace(t.disk, t.levels[0], x);
      assert LeafEnts(t, k)[i] == x;
      BeforeTarget(c, t, p, key, k);
      NotBefore(c, t, p, key, x);
    }
  }

  lemma FirstOfLeaf(c: Caps, t: Tree, p: nat)
    requires Ready(c, t, 0) && 0 < p < |t.levels[0]|
    ensures LeafEnts(t, p) != [] && LeafEnts(t, p)[0] in Row(t, 0)
  {
    NodeFacts(c, t, 0, p);
    TopView(c, t);
    EntryInRow(t, 0, p);
    assert Row(t, 0)[Before(t, 0, p) + 0] == LeafEnts(t, p)[0];
  }

  /** With the last leaf all below the key, the key itself is not stored. */
  lemma NotBefore(c: Caps, t: Tree, p: nat, key: int, x: Entry)
    requires Ready(c, t, 0) && Ordered(t) && p + 1 == |t.levels[0]| && AllBelow(t, p, key) && x in Row(t, 0)
    ensures x.key != key
  {
    hide Flat, LevelOk, Blocks, BlocksOk, OrderedAt, Matching, Ordered;
    AllBelowKey(c, t, p, key);
    MatchingAll(Row(t, 0), key);
    FlatAt(t.disk, t.levels[0], p);
    assert t.levels[0][..p + 1] == t.levels[0];
    assert Row(t, 0) == Flat(t.disk, t.levels[0][..p]) + LeafEnts(t, p);
  }
}
