/** Whole runs of allocations and releases. */
module AllocatorRuns {
  import opened FreeSpace
  import opened RefillRounds
  import opened Allocators
  import opened BmTreeSteps
  import M = BmTreeModel
  import N = BmTreeCounts
  import T = BmTreeContainer

  /** `Release(i)` frees the extent that was handed out as number `i` among those still in use. */
  datatype Op = Take(length: nat, patience: nat) | TakeCluster | Release(i: nat)

  /** Where a run stands: the tree and the extents in use, and how the next operation comes out. */
  datatype Stand = Stand(t: M.Tree, inUse: seq<Extent>, r: Result, target: Extent, course: Course, now: M.Tree)

  /** The next operation fails: it says why, or there is no spare cluster, nothing to free, or no block for that. */
  ghost predicate Fails(m: Marks, c: M.Caps, op: Op, s: Stand)
    requires m.size > 0
  {
    match op
    case Take(length, patience) => s.r != Ok && Answered(m, c, s.t, length, patience, s.r, s.target, s.course, s.now)
    case TakeCluster => s.t.pool == []
    case Release(i) => i >= |s.inUse| || CannotFile(m, c, s.t, s.inUse[i])
  }

  /** The next operation succeeds and leads from one stand to the other. */
  ghost predicate Leads(m: Marks, c: M.Caps, op: Op, s: Stand, s': Stand)
    requires m.size > 0
  {
    match op
    case Take(length, patience) =>
      && Answered(m, c, s.t, length, patience, Ok, s.target, s.course, s'.t)
      && s'.inUse == s.inUse + [s.target]
    case TakeCluster =>
      && s.t.pool != [] && s'.t == s.t.(pool := s.t.pool[..|s.t.pool| - 1])
      && s.t.pool[|s.t.pool| - 1] >= 0
      && s'.inUse == s.inUse + [Extent.Extent(s.t.pool[|s.t.pool| - 1], m.size)]
    case Release(i) =>
      && i < |s.inUse| && s'.inUse == M.RemoveAt(s.inUse, i) && Freed(m, c, s.t, s.inUse[i], s'.t)
  }

  /** The stands `trail` come one after the other by the operations `ops`. */
  ghost predicate Trodden(m: Marks, c: M.Caps, ops: seq<Op>, trail: seq<Stand>)
    requires m.size > 0
  {
    |trail| == |ops| + 1 && forall i :: 0 <= i < |ops| ==> Leads(m, c, ops[i], trail[i], trail[i + 1])
  }

  lemma StepOn(m: Marks, c: M.Caps, ops: seq<Op>, trail: seq<Stand>, op: Op, s: Stand, s': Stand)
    requires m.size > 0 && Trodden(m, c, ops, trail) && Leads(m, c, op, s, s')
    requires s.t == trail[|ops|].t && s.inUse == trail[|ops|].inUse
    ensures Trodden(m, c, ops + [op], trail[..|ops|] + [s] + [s'])
  {
    hide Answered, Freed;
    var trail' := trail[..|ops|] + [s] + [s'];
    forall i | 0 <= i < |ops + [op]| ensures Leads(m, c, (ops + [op])[i], trail'[i], trail'[i + 1]) {
      if i == |ops| - 1 {
        assert Leads(m, c, ops[i], trail[i], trail[i + 1]);
      } else if i < |ops| {
        assert Leads(m, c, ops[i], trail[i], trail[i + 1]) && trail'[i + 1] == trail[i + 1];
      }
    }
  }

  /**
   Runs operations, along `trail`, until one fails. No byte ever changes its number of owners, so that whatever was
   apart stays apart, and all bytes stay accounted for.
   */
  method Run(space: Allocator, ops: seq<Op>, inUse: seq<Extent>)
    returns (done: nat, now: seq<Extent>, ghost trail: seq<Stand>)
    requires space.Valid() && inUse == space.held
    modifies space, space.fbt
    ensures done <= |ops| && space.clusterSize > 0
    ensures Trodden(space.Limits(), space.fbt.caps, ops[..done], trail)
    ensures trail[0].t == old(space.fbt.Now()) && trail[0].inUse == inUse && now == trail[done].inUse
    ensures done < |ops| ==> Fails(space.Limits(), space.fbt.caps, ops[done], trail[done])
    ensures done == |ops| ==>
      && space.Valid() && space.fbt.levels != [] && now == space.held && trail[done].t == space.fbt.Now()
      && |space.fbt.pool| <= space.highMark
      && Balanced(old(space.Book(space.held)), space.Book(space.held), space.clusterSize)
  {
    hide Sane, Balanced, PutIn, TookOut, CanTake, TakenEntry, Answered, CannotFile, Freed, Filing, N.Released, M.Flat;
    hide T.BmTree.Contents, T.BmTree.Owned, T.BmTree.Valid, Extents, Packed, InOrder, Trodden;
    InOrderRooted(space.fbt, space.clusterSize, space.deviceSize, space.lowMark, space.highMark, space.held);
    ghost var l := space.Book(space.held);
    BalancedItself(l, space.clusterSize);
    done, now, trail := 0, inUse, [Standing(space)];
    NothingTrodden(space.Limits(), space.fbt.caps, trail);
    while done < |ops|
      invariant done <= |ops| && space.Valid() && now == space.held && space.fbt.levels != []
      invariant Trodden(space.Limits(), space.fbt.caps, ops[..done], trail) && |trail| == done + 1
      invariant trail[0].t == old(space.fbt.Now()) && trail[0].inUse == inUse
      invariant trail[done].t == space.fbt.Now() && trail[done].inUse == space.held
      invariant Balanced(l, space.Book(space.held), space.clusterSize)
      decreases |ops| - done
    {
      ghost var before, s := space.Book(space.held), Standing(space);
      var r;
      match ops[done] {
        case Take(length, patience) =>
          var e;
          ghost var course;
          r, e, course := space.AllocateBlocks(length, patience);
          s := s.(r := r, target := e, course := course, now := space.fbt.Now());
          if r != Ok {
            StandStill(space.Limits(), space.fbt.caps, ops[..done], trail, s);
            trail := trail[..done] + [s];
            return;
          }
          now := now + [e];
        case TakeCluster =>
          var a;
          r, a := space.AllocateTreeBlocks();
          if r != Ok { return; }
          now := now + [Extent.Extent(a, space.clusterSize)];
        case Release(i) =>
          if i >= |now| { return; }
          r := space.FreeBlocks(now[i], i);
          if r != Ok { return; }
          now := now[..i] + now[i + 1..];
      }
      InOrderRooted(space.fbt, space.clusterSize, space.deviceSize, space.lowMark, space.highMark, space.held);
      BalancedTwice(l, before, space.Book(space.held), space.clusterSize);
      StepOn(space.Limits(), space.fbt.caps, ops[..done], trail, ops[done], s, Standing(space));
      trail := trail[..done] + [s] + [Standing(space)];
      assert ops[..done + 1] == ops[..done] + [ops[done]];
      done := done + 1;
    }
    InOrderRooted(space.fbt, space.clusterSize, space.deviceSize, space.lowMark, space.highMark, space.held);
  }

  lemma NothingTrodden(m: Marks, c: M.Caps, trail: seq<Stand>)
    requires m.size > 0 && |trail| == 1
    ensures Trodden(m, c, [], trail)
  {}

  /** What becomes of the next operation is no matter for the ones before. */
  lemma StandStill(m: Marks, c: M.Caps, ops: seq<Op>, trail: seq<Stand>, s: Stand)
    requires m.size > 0 && Trodden(m, c, ops, trail) && s.t == trail[|ops|].t && s.inUse == trail[|ops|].inUse
    ensures Trodden(m, c, ops, trail[..|ops|] + [s])
  {
    hide Answered, Freed;
    var trail' := trail[..|ops|] + [s];
    forall i | 0 <= i < |ops| ensures Leads(m, c, ops[i], trail'[i], trail'[i + 1]) {
      assert Leads(m, c, ops[i], trail[i], trail[i + 1]);
    }
  }

  ghost function Standing(space: Allocator): Stand
    reads space, space.fbt
  {
    var t, none := space.fbt.Now(), Extent.Extent(0, 0);
    Stand(t, space.held, Ok, none, Course(t, t, [], Round(t, 0, none, t)), t)
  }
}
