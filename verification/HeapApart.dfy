/** Runs of the allocator in which no two free blocks are ever next to each other, and one in which they come to be. */
module HeapApart {
  import opened Words
  import opened Algorithm
  import opened HeapModel
  import opened HeapSafety
  import opened HeapAligned
  import opened HeapCoalescing
  import opened HeapRuns

  // --- cuts -------------------------------------------------------------------------------------

  /** A block other than the cut one: what follows it is what followed it before. */
  lemma ElsewhereApart(h: HeapState, a: nat, h': HeapState, x: nat)
    requires Tiled(h) && NoAdjacentFree(h) && a in h.hdrs && !h.hdrs[a].Used() && x in h.hdrs && x != a
    requires forall y | y in h.hdrs && y != a :: y in h'.hdrs && h'.hdrs[y] == h.hdrs[y]
    requires h'.hdrs.Keys >= h.hdrs.Keys && 0 !in h'.hdrs
    ensures !FreePair(h', x)
  {
    NextBlock(h, x);
    assert !FreePair(h, x);
  }

  /** What followed the cut block, and now follows its last part, is in use. */
  lemma AfterApart(h: HeapState, a: nat, h': HeapState, x: nat)
    requires Tiled(h) && NoAdjacentFree(h) && a in h.hdrs && !h.hdrs[a].Used() && x in h'.hdrs
    requires forall y | y in h.hdrs && y != a :: y in h'.hdrs && h'.hdrs[y] == h.hdrs[y]
    requires h'.hdrs[x].next == h.hdrs[a].next && 0 !in h'.hdrs
    ensures !FreePair(h', x)
  {
    NextBlock(h, a);
    assert !FreePair(h, a);
  }

  lemma CutApart(h: HeapState, a: nat, front: Header, back: Header, h': HeapState)
    requires Tiled(h) && NoAdjacentFree(h) && a in h.hdrs && !h.hdrs[a].Used() && Cuts(h, a, front, back, h')
    requires front.Used() || back.Used()
    ensures NoAdjacentFree(h')
  {
    NoHeaderAtZero(h);
    forall x | x in h'.hdrs
      ensures !FreePair(h', x)
    {
      hide Tiled, NoAdjacentFree;
      if x == front.next {
        AfterApart(h, a, h', x);
      } else if x != a {
        ElsewhereApart(h, a, h', x);
      }
    }
  }

  lemma SplitApart(h: HeapState, a: nat, size: Word)
    requires Tiled(h) && NoAdjacentFree(h) && a in h.hdrs && !h.hdrs[a].Used() && HasRoom(h, a, size)
    ensures NoAdjacentFree(Split(h, a, size))
  {
    var hd := h.hdrs[a];
    SplitShape(h, a, size);
    CutApart(h, a, Header(USED, size, hd.prev, a + HEADER_SIZE + size),
             Header(FREE, hd.length - size - HEADER_SIZE, a, hd.next), Split(h, a, size));
  }

  lemma TakeApart(h: HeapState, a: nat)
    requires NoAdjacentFree(h) && a in h.hdrs
    ensures NoAdjacentFree(Take(h, a))
  {
    forall x | x in Take(h, a).hdrs
      ensures !FreePair(Take(h, a), x)
    {
      assert !FreePair(h, x);
    }
  }

  lemma BackApart(h: HeapState, a: nat, at: nat, size: Word)
    requires Tiled(h) && NoAdjacentFree(h) && a in h.hdrs && !h.hdrs[a].Used()
    requires a + 2 * HEADER_SIZE <= at && at + size == a + HEADER_SIZE + h.hdrs[a].length
    ensures NoAdjacentFree(CutBack(h, a, at, size))
  {
    NextBlock(h, a);
    var hd := h.hdrs[a];
    NotInside(h, a, at - HEADER_SIZE);
    CutApart(h, a, Header(FREE, at - a - 2 * HEADER_SIZE, hd.prev, at - HEADER_SIZE),
             Header(USED, size, a, hd.next), CutBack(h, a, at, size));
  }

  lemma MiddleApart(h: HeapState, a: nat, at: nat, size: Word)
    requires Tiled(h) && NoAdjacentFree(h) && a in h.hdrs && !h.hdrs[a].Used()
    requires a + 2 * HEADER_SIZE <= at && at + size + HEADER_SIZE <= a + HEADER_SIZE + h.hdrs[a].length
    ensures NoAdjacentFree(CutMiddle(h, a, at, size))
  {
    hide Tiled;
    NextBlock(h, a);
    BaseIsBlock(h);
    NoHeaderAtZero(h);
    NotInside(h, a, at - HEADER_SIZE);
    NotInside(h, a, at + size);
    var h' := CutMiddle(h, a, at, size);
    forall x | x in h'.hdrs
      ensures !FreePair(h', x)
    {
      hide NoAdjacentFree;
      if x == at + size {
        AfterApart(h, a, h', x);
      } else if x != a && x != at - HEADER_SIZE {
        ElsewhereApart(h, a, h', x);
      }
    }
  }

  // --- operations -----------------------------------------------------------------------------------

  lemma AllocApart(h: HeapState, size: Word)
    requires Tiled(h) && NoAdjacentFree(h) && Fits(h, AllocOp(size))
    ensures NoAdjacentFree(Alloc(h, size).0)
  {
    hide Tiled, NoAdjacentFree;
    var r := FirstFit(h, Chain(h), size);
    if size + HEADER_SIZE >= TWO_64 {
      OverflowTakesNothing(h, size);
    } else if r.Some? {
      if h.hdrs[r.value].length > size + HEADER_SIZE {
        SplitApart(h, r.value, size);
      } else {
        TakeApart(h, r.value);
      }
    }
  }

  lemma CommitApart(h: HeapState, a: nat, size: Word, align: Word)
    requires Tiled(h) && NoAdjacentFree(h) && a in h.hdrs && PowerOfTwo(align)
    requires Commit(h, a, size, align).Got? && CutFits(h, a, size, align)
    ensures NoAdjacentFree(Commit(h, a, size, align).heap)
  {
    hide Tiled, NoAdjacentFree;
    CutOfFinds(h, a, size, align);
    match CutOf(h, a, size, align) {
      case Whole => TakeApart(h, a);
      case Front => SplitApart(h, a, size);
      case Middle(at) => MiddleApart(h, a, at, size);
      case Back(at) => BackApart(h, a, at, size);
    }
  }

  /** What `op` gives back, if it is a `free`, is joined with all that is free next to it. */
  ghost predicate Joined(h: HeapState, op: Op)
  {
    match op
    case FreeOp(p) => p >= HEADER_SIZE && p - HEADER_SIZE in h.hdrs && JoinsAll(h, p - HEADER_SIZE)
    case FreeCheckedOp(p, _) => p >= HEADER_SIZE && p - HEADER_SIZE in h.hdrs && JoinsAll(h, p - HEADER_SIZE)
    case _ => true
  }

  lemma AllocOpApart(h: HeapState, op: Op, h': HeapState)
    requires Tiled(h) && NoAdjacentFree(h) && Completes(h, op, h') && (op.AllocOp? || op.AlignedOp?)
    ensures NoAdjacentFree(h')
  {
    hide Tiled, NoAdjacentFree, Alloc, Free, FreeChecked, CutFits, CutOf, Split, Take, CutMiddle, CutBack;
    if op.AllocOp? {
      AllocApart(h, op.size);
    } else {
      var r := FirstCut(h, Chain(h), op.size, op.align);
      if r.Some? {
        CommitApart(h, r.value, op.size, op.align);
      }
    }
  }

  lemma ReturnGives(h: HeapState, op: Op, h': HeapState)
    requires Tiled(h) && Completes(h, op, h') && (op.FreeOp? || op.FreeCheckedOp?)
    ensures Gives(h, op.p, h')
  {
    hide Free, Tiled;
  }

  /** An operation that returns and fits puts no free block next to another, unless it is a `free` whose walk back goes astray. */
  lemma StepApartIff(h: HeapState, op: Op, h': HeapState)
    requires Tiled(h) && NoAdjacentFree(h) && Completes(h, op, h')
    ensures NoAdjacentFree(h') <==> Joined(h, op)
  {
    hide Tiled, NoAdjacentFree, JoinsAll, Completes, Gives;
    if op.AllocOp? || op.AlignedOp? {
      AllocOpApart(h, op, h');
    } else {
      ReturnGives(h, op, h');
      FreeSeparatesIff(h, op.p, h');
    }
  }

  // --- runs -----------------------------------------------------------------------------------------

  lemma FreshApart(base: Word, size: Word)
    requires 0 < base && HEADER_SIZE <= size && base + size < TWO_64
    ensures NoAdjacentFree(ResetState(base, size))
  {
  }

  lemma ExactStepApart(h: HeapState, op: Op, h': HeapState)
    requires Exact(h) && NoAdjacentFree(h) && Completes(h, op, h')
    ensures NoAdjacentFree(h')
  {
    hide NoAdjacentFree, Exact, Tiled, Completes, Free;
    ExactIsTiled(h);
    if op.FreeOp? || op.FreeCheckedOp? {
      ReturnGives(h, op, h');
      FreeKeepsHeap(h, op.p);
      FreeKeepsExact(h, op.p);
    } else {
      AllocOpApart(h, op, h');
    }
  }

  /** Over a run from `reset` in which every cut is of the last block no two free blocks are ever next to each other. */
  lemma {:induction false} ExactRunStaysApart(base: Word, size: Word, trace: seq<HeapState>, ops: seq<Op>, i: nat)
    requires 0 < base && HEADER_SIZE <= size && base + size < TWO_64
    requires Run(trace, ops) && trace[0] == ResetState(base, size) && i < |trace|
    requires forall j: nat | j < |ops| :: CutsLast(trace[j], ops[j])
    ensures Exact(trace[i]) && NoAdjacentFree(trace[i])
  {
    hide CutsLast, Completes, Exact, NoAdjacentFree;
    ResetIsExact(base, size);
    ExactRunNeverHalts(trace, ops, i, 0);
    if i > 0 {
      ExactRunStaysApart(base, size, trace, ops, i - 1);
      assert Completes(trace[i - 1], ops[i - 1], trace[i - 1 + 1]);
      ExactStepApart(trace[i - 1], ops[i - 1], trace[i]);
    } else {
      FreshApart(base, size);
    }
  }

  /** Any run from `reset` keeps free blocks apart in every state if and only if each `free` joins all it could. */
  lemma {:induction false} RunApartIff(base: Word, size: Word, trace: seq<HeapState>, ops: seq<Op>)
    requires 0 < base && HEADER_SIZE <= size && base + size < TWO_64
    requires Run(trace, ops) && trace[0] == ResetState(base, size)
    ensures (forall i: nat | i < |trace| :: NoAdjacentFree(trace[i])) <==> (forall i: nat | i < |ops| :: Joined(trace[i], ops[i]))
  {
    hide Completes, NoAdjacentFree, Joined, Tiled;
    forall i: nat | i < |ops|
      ensures NoAdjacentFree(trace[i]) ==> (NoAdjacentFree(trace[i + 1]) <==> Joined(trace[i], ops[i]))
    {
      RunFromReset(base, size, trace, ops, i);
      assert Completes(trace[i], ops[i], trace[i + 1]);
      if NoAdjacentFree(trace[i]) { StepApartIff(trace[i], ops[i], trace[i + 1]); }
    }
    if forall i: nat | i < |trace| :: NoAdjacentFree(trace[i]) {
      forall i: nat | i < |ops|
        ensures Joined(trace[i], ops[i])
      {
        assert NoAdjacentFree(trace[i]) && NoAdjacentFree(trace[i + 1]);
      }
    }
    if forall i: nat | i < |ops| :: Joined(trace[i], ops[i]) {
      forall i: nat | i < |trace|
        ensures NoAdjacentFree(trace[i])
      {
        FreshApart(base, size);
        JoinedRun(trace, ops, i);
      }
    }
  }

  lemma {:induction false} JoinedRun(trace: seq<HeapState>, ops: seq<Op>, i: nat)
    requires |trace| == |ops| + 1 && i < |trace| && NoAdjacentFree(trace[0])
    requires forall j: nat | j < |ops| :: Joined(trace[j], ops[j])
    requires forall j: nat | j < |ops| :: NoAdjacentFree(trace[j]) ==> (NoAdjacentFree(trace[j + 1]) <==> Joined(trace[j], ops[j]))
    ensures NoAdjacentFree(trace[i])
  {
    hide NoAdjacentFree, Joined;
    if i > 0 {
      JoinedRun(trace, ops, i - 1);
      assert NoAdjacentFree(trace[i - 1 + 1]) <==> Joined(trace[i - 1], ops[i - 1]);
    }
  }

  // --- a free that completes and leaves two free blocks side by side ------------------------------

  /** The last block is returned; its stale back link leads past the free block before it. */
  lemma StaleLinkSeparates()
    ensures exists h, p: Word, h' ::
      && Reachable(4096, 488, h) && Gives(h, p, h') && NoAdjacentFree(h) && !NoAdjacentFree(h')
  {
    YSplit();
    var h := State(5);
    ReachableIsTiled(4096, 488, h);
    TiledPrevBelow(h);
    FreeAlone(h, 4488, 4456);
    var h' := Release(h, 4456);
    assert FreePair(h', 4356);
    assert Gives(h, 4488, h');
  }
}
