/**
 The rounds in which the allocator refills its spare clusters, as steps of the tree of free extents: what one round
 does, which trees it leaves behind, and how a course of rounds ends.
 */
module RefillRounds {
  import opened BmTreeModel
  import opened BmTreeCounts
  import opened BmTreeSteps
  import opened FreeSpace
  import V = Volumes
  import X = Multiples

  /**
   `Reentrant` and `Stalled` end a run that the model does not follow further: the tree released a block while the
   spares were at the high mark, and refilling went through more rounds that moved nothing than it had the patience for.
   */
  datatype Result = Ok | WontFit | Misaligned | NoSpace | NotFound | Reentrant | Stalled

  /** The size of a cluster and the marks between which the number of spare clusters is kept. */
  datatype Marks = Marks(size: nat, low: nat, high: nat)

  /** The entry that an extent is filed as. */
  function Filing(e: V.Extent): Entry {
    Entry(e.length, Packed(e))
  }

  /** The extent that a removal takes. */
  ghost function TakenExtent(t: Tree, length: nat): V.Extent {
    Unpacked(TakenEntry(t, length).rec)
  }

  // ---- One round ----

  /** The first `n` clusters from `offset` on. */
  function Cut(offset: nat, size: nat, n: nat): (r: seq<Address>)
    ensures |r| == n
  {
    if n == 0 then [] else Cut(offset, size, n - 1) + [offset + (n - 1) * size]
  }

  lemma CutNothing(offset: nat, size: nat, pool: seq<Address>)
    ensures pool + Cut(offset, size, 0) == pool
  {}

  lemma CutMore(offset: nat, size: nat, n: nat)
    ensures Cut(offset, size, n + 1) == Cut(offset, size, n) + [offset + n * size]
  {}

  /** With `spares` at hand, `moved` clusters are cut off `e` until it is too short or the low mark is reached. */
  ghost predicate Moves(m: Marks, spares: nat, e: V.Extent, moved: nat, rest: V.Extent) {
    && rest.offset == e.offset + moved * m.size && rest.length + moved * m.size == e.length
    && (rest.length < m.size || spares + moved >= m.low) && (moved > 0 ==> spares + moved <= m.low)
  }

  /** The tree `mid` without the extent taken, what was moved from that and what was left, and the tree afterwards. */
  datatype Round = Round(mid: Tree, moved: nat, rest: V.Extent, after: Tree)

  /** The tree with the moved clusters among its spares. */
  ghost function Stocked(m: Marks, t: Tree, r: Round): Tree {
    r.mid.(pool := r.mid.pool + Cut(TakenExtent(t, m.size).offset, m.size, r.moved))
  }

  /** A round that took an extent out of `t` and moved its clusters. */
  ghost predicate Moved(m: Marks, c: Caps, t: Tree, r: Round) {
    && TookOut(c, t, r.mid, m.size) && |t.pool| + Released(c, t, m.size) <= m.high
    && TakenExtent(t, m.size).length == TakenEntry(t, m.size).key >= m.size
    && Moves(m, |r.mid.pool|, TakenExtent(t, m.size), r.moved, r.rest)
  }

  /** A round that ended well: what was left of the extent, if anything, was filed again. */
  ghost predicate Refilled(m: Marks, c: Caps, t: Tree, r: Round) {
    && Moved(m, c, t, r)
    && Ready(c, r.after, 0)
    && if r.rest.length == 0 then r.after == Stocked(m, t, r) else PutIn(c, Stocked(m, t, r), r.after, Filing(r.rest))
  }

  /** A round that found no block to file the rest. */
  ghost predicate Short(m: Marks, c: Caps, t: Tree, r: Round) {
    && Moved(m, c, t, r)
    && r.rest.length > 0 && Taken(c, r.mid, r.rest.length) > |r.mid.pool| + r.moved
  }

  lemma StockedTakes(m: Marks, c: Caps, t: Tree, r: Round, key: int)
    ensures Taken(c, Stocked(m, t, r), key) == Taken(c, r.mid, key)
    ensures |Stocked(m, t, r).pool| == |r.mid.pool| + r.moved
  {}

  /** What a round leaves: the spares before it, with what the tree released and what was moved, less what it took. */
  lemma RoundPool(m: Marks, c: Caps, t: Tree, r: Round)
    requires Refilled(m, c, t, r)
    ensures |r.mid.pool| == |t.pool| + Released(c, t, m.size)
    ensures r.rest.length == 0 ==> |r.after.pool| == |r.mid.pool| + r.moved
    ensures r.rest.length > 0 ==>
              && Taken(c, r.mid, r.rest.length) <= |r.mid.pool| + r.moved
              && |r.after.pool| == |r.mid.pool| + r.moved - Taken(c, r.mid, r.rest.length)
    ensures !Short(m, c, t, r)
  {
    hide Taken, Released;
    StockedTakes(m, c, t, r, r.rest.length);
  }

  /** A round moves nothing exactly when what the tree releases reaches the low mark by itself. */
  lemma IdleRound(m: Marks, c: Caps, t: Tree, r: Round)
    requires Moved(m, c, t, r) && m.size > 0
    ensures r.moved == 0 <==> |t.pool| + Released(c, t, m.size) >= m.low
    ensures r.moved == 0 ==> r.rest == TakenExtent(t, m.size) && Stocked(m, t, r) == r.mid
  {
    hide Released, Taken, TakenEntry, CanTake, TookOut, Moves, Cut;
    TookPool(c, t, r.mid, m.size);
    MovesNothing(m, |r.mid.pool|, TakenExtent(t, m.size), r.moved, r.rest);
    if r.moved == 0 { CutNothing(TakenExtent(t, m.size).offset, m.size, r.mid.pool); }
  }

  lemma MovesNothing(m: Marks, spares: nat, e: V.Extent, moved: nat, rest: V.Extent)
    requires Moves(m, spares, e, moved, rest) && e.length >= m.size > 0
    ensures moved == 0 <==> spares >= m.low
    ensures moved == 0 ==> rest == e
  {
    if moved > 0 { X.AtLeast(moved, m.size); }
  }

  lemma TookPool(c: Caps, t: Tree, t': Tree, key: int)
    requires TookOut(c, t, t', key)
    ensures |t'.pool| == |t.pool| + Released(c, t, key)
  {}

  // ---- A course of rounds ----

  /** The tree after `rs`. */
  function At(t: Tree, rs: seq<Round>): Tree {
    if rs == [] then t else rs[|rs| - 1].after
  }

  /** Each round of `rs` starts below the low mark, from the tree that the one before left. */
  ghost predicate Rounds(m: Marks, c: Caps, t: Tree, rs: seq<Round>) {
    rs == [] || (
      var before := rs[..|rs| - 1];
      Rounds(m, c, t, before) && |At(t, before).pool| < m.low && Refilled(m, c, At(t, before), rs[|rs| - 1]))
  }

  /** The number of rounds that moved nothing. */
  function Idle(rs: seq<Round>): nat {
    if rs == [] then 0 else Idle(rs[..|rs| - 1]) + if rs[|rs| - 1].moved == 0 then 1 else 0
  }

  /** How refilling goes on from `t` after `idle` rounds that moved nothing: it ends so, or with another round. */
  ghost function Outcome(m: Marks, c: Caps, t: Tree, idle: nat, patience: nat): Result {
    if |t.pool| >= m.low then Ok
    else if idle > patience then Stalled
    else if !CanTake(t, m.size) then Result.NotFound
    else if |t.pool| + Released(c, t, m.size) > m.high then Reentrant
    else Result.NoSpace
  }

  /**
   Refilling from `t` went through the rounds `rs` and ended with `r` and the tree `now`: exactly when the marks, the
   tree and the idle rounds say so, and for want of blocks only in a last round `last` that was short of them.
   */
  ghost predicate Ended(m: Marks, c: Caps, t: Tree, patience: nat, rs: seq<Round>, last: Round, r: Result, now: Tree) {
    && Rounds(m, c, t, rs)
    && (rs != [] ==> Idle(rs[..|rs| - 1]) <= patience)
    && r == Outcome(m, c, At(t, rs), Idle(rs), patience)
    && (r == Result.NoSpace ==> Short(m, c, At(t, rs), last))
    && (r == Ok || r == Result.NotFound || r == Stalled ==> now == At(t, rs))
  }

  lemma NoRounds(m: Marks, c: Caps, t: Tree)
    ensures Rounds(m, c, t, []) && Idle([]) == 0 && At(t, []) == t
  {}

  lemma OneMoreRound(m: Marks, c: Caps, t: Tree, rs: seq<Round>, r: Round)
    requires Rounds(m, c, t, rs) && |At(t, rs).pool| < m.low && Refilled(m, c, At(t, rs), r)
    ensures Rounds(m, c, t, rs + [r]) && At(t, rs + [r]) == r.after
    ensures (rs + [r])[..|rs + [r]| - 1] == rs
    ensures Idle(rs + [r]) == Idle(rs) + if r.moved == 0 then 1 else 0
  {
    hide Refilled;
    assert (rs + [r])[..|rs|] == rs;
  }
}
