/**
  Runs of the allocator from `reset`: what holds in every state, and one way for a
  legitimate `free` to end in a failed assertion.
 */
module HeapRuns {
  import opened Words
  import opened Wrappers
  import opened Algorithm
  import opened HeapModel
  import opened HeapSafety
  import opened HeapAligned
  import opened HeapCoalescing

  datatype Op =
    | AllocOp(size: Word)
    | AlignedOp(size: Word, align: Word)
    | FreeOp(p: Word)
    | FreeCheckedOp(p: Word, sz: Word)
  {
    /** True when the operation is a return of the block with header `a`. */
    predicate Frees(a: nat) {
      (FreeOp? || FreeCheckedOp?) && p == a + HEADER_SIZE
    }
  }

  /**
    `h'` is where `op` leaves `h` when the call returns; alignments are powers of two, as the interface asks. Of a
    heap that is not tiled nothing is assumed.
   */
  ghost predicate Returns(h: HeapState, op: Op, h': HeapState)
  {
    Tiled(h) ==>
      match op
      case AllocOp(size) => h' == Alloc(h, size).0
      case AlignedOp(size, align) =>
        PowerOfTwo(align) &&
        (match AllocAligned(h, size, align)
         case Got(heap, _) => h' == heap
         case NoRoom => h' == h
         case Diverges => false)
      case FreeOp(p) => PrevBelow(h) && Free(h, p) == Some(h')
      case FreeCheckedOp(p, sz) => PrevBelow(h) && FreeChecked(h, p, sz) == Some(h')
  }

  /**
    What `alloc` and `allocAligned` do not check: no block is taken for a size that wraps with the header's, and an
    aligned block cut at its end has room for a header.
   */
  ghost predicate Fits(h: HeapState, op: Op)
  {
    match op
    case AllocOp(size) =>
      size + HEADER_SIZE < TWO_64 || forall a | a in h.hdrs && !h.hdrs[a].Used() :: h.hdrs[a].length <= size + HEADER_SIZE - TWO_64
    case AlignedOp(size, align) =>
      var r := FirstCut(h, Chain(h), size, align);
      r.Some? ==> CutFits(h, r.value, size, align)
    case _ => true
  }

  /** A call that returns and fits. */
  ghost predicate Completes(h: HeapState, op: Op, h': HeapState)
  {
    Returns(h, op, h') && (Tiled(h) ==> Fits(h, op))
  }

  ghost predicate Run(trace: seq<HeapState>, ops: seq<Op>)
  {
    |trace| == |ops| + 1 && forall i: nat | i < |ops| :: Completes(trace[i], ops[i], trace[i + 1])
  }

  /** A size that wraps, where it takes no block, leaves the heap alone. */
  lemma OverflowTakesNothing(h: HeapState, size: Word)
    requires Tiled(h) && size + HEADER_SIZE >= TWO_64 && Fits(h, AllocOp(size))
    ensures Alloc(h, size) == (h, None)
  {
    AllocFindsLowest(h, size);
    forall a | a in h.hdrs
      ensures !Accepts(h.hdrs[a], size)
    {
      NextBlock(h, a);
    }
  }

  lemma StepKeepsHeap(h: HeapState, op: Op, h': HeapState)
    requires Tiled(h) && Completes(h, op, h')
    ensures Tiled(h') && h'.base == h.base && h'.size == h.size
    ensures forall a | a in LiveBlocks(h) && !op.Frees(a) :: a in LiveBlocks(h') && LiveBlocks(h')[a] == LiveBlocks(h)[a]
  {
    match op {
      case AllocOp(size) =>
        if size + HEADER_SIZE < TWO_64 { AllocKeepsHeap(h, size); } else { OverflowTakesNothing(h, size); }
      case AlignedOp(size, align) => AlignedKeepsHeap(h, size, align);
      case FreeOp(p) => FreeKeepsHeap(h, p);
      case FreeCheckedOp(p, sz) => FreeKeepsHeap(h, p);
    }
  }

  /** A call that returns keeps the tiling if and only if it fits. */
  lemma ReturnKeepsTilingIff(h: HeapState, op: Op, h': HeapState)
    requires Tiled(h) && Returns(h, op, h')
    ensures Tiled(h') <==> Fits(h, op)
  {
    if Fits(h, op) {
      StepKeepsHeap(h, op, h');
    } else {
      match op {
        case AllocOp(size) => AllocOverflow(h, size);
        case AlignedOp(size, align) => UnfitAligned(h, size, align, h');
      }
    }
  }

  lemma UnfitAligned(h: HeapState, size: Word, align: Word, h': HeapState)
    requires Tiled(h) && Returns(h, AlignedOp(size, align), h') && !Fits(h, AlignedOp(size, align))
    ensures !Tiled(h')
  {
    AlignedEnds(h, size, align);
    AlignedKeepsHeap(h, size, align);
  }

  lemma StepKeepsBlock(h: HeapState, op: Op, h': HeapState, a: nat)
    requires Tiled(h) && Completes(h, op, h') && a in LiveBlocks(h) && !op.Frees(a)
    ensures a in LiveBlocks(h') && LiveBlocks(h')[a] == LiveBlocks(h)[a]
  {
    StepKeepsHeap(h, op, h');
  }

  /** In every state of every run from `reset` the blocks tile the region. */
  lemma {:induction false} RunKeepsTiling(trace: seq<HeapState>, ops: seq<Op>, i: nat)
    requires Run(trace, ops) && i < |trace| && Tiled(trace[0])
    ensures Tiled(trace[i]) && trace[i].base == trace[0].base && trace[i].size == trace[0].size
  {
    if i > 0 {
      RunKeepsTiling(trace, ops, i - 1);
      assert Completes(trace[i - 1], ops[i - 1], trace[i]);
      StepKeepsHeap(trace[i - 1], ops[i - 1], trace[i]);
    }
  }

  /** Every call of the run returns, whether or not it fits. */
  ghost predicate ReturningRun(trace: seq<HeapState>, ops: seq<Op>)
  {
    |trace| == |ops| + 1 && forall i: nat | i < |ops| :: Returns(trace[i], ops[i], trace[i + 1])
  }

  /** A run of calls that return keeps the tiling throughout if and only if each of them fits. */
  lemma {:induction false} RunTilesIff(trace: seq<HeapState>, ops: seq<Op>)
    requires ReturningRun(trace, ops) && Tiled(trace[0])
    ensures (forall i: nat | i < |trace| :: Tiled(trace[i])) <==> (forall i: nat | i < |ops| :: Fits(trace[i], ops[i]))
  {
    hide Tiled, Fits, Returns;
    if forall i: nat | i < |trace| :: Tiled(trace[i]) {
      forall i: nat | i < |ops|
        ensures Fits(trace[i], ops[i])
      {
        assert Returns(trace[i], ops[i], trace[i + 1]);
        ReturnKeepsTilingIff(trace[i], ops[i], trace[i + 1]);
      }
    }
    if forall i: nat | i < |ops| :: Fits(trace[i], ops[i]) {
      FittingRun(trace, ops, |ops|);
      forall i: nat | i < |trace|
        ensures Tiled(trace[i])
      {
        FittingRun(trace, ops, i);
      }
    }
  }

  lemma {:induction false} FittingRun(trace: seq<HeapState>, ops: seq<Op>, i: nat)
    requires ReturningRun(trace, ops) && Tiled(trace[0]) && i < |trace|
    requires forall j: nat | j < |ops| :: Fits(trace[j], ops[j])
    ensures Tiled(trace[i])
  {
    hide Tiled, Fits, Returns;
    if i > 0 {
      FittingRun(trace, ops, i - 1);
      assert Returns(trace[i - 1], ops[i - 1], trace[i - 1 + 1]);
      ReturnKeepsTilingIff(trace[i - 1], ops[i - 1], trace[i]);
    }
  }

  lemma RunFromReset(base: Word, size: Word, trace: seq<HeapState>, ops: seq<Op>, i: nat)
    requires 0 < base && HEADER_SIZE <= size && base + size < TWO_64
    requires Run(trace, ops) && trace[0] == ResetState(base, size) && i < |trace|
    ensures Tiled(trace[i]) && trace[i].base == base && trace[i].size == size
  {
    ResetTiles(base, size);
    RunKeepsTiling(trace, ops, i);
  }

  /** A live block keeps its address and its length until the operation that frees it. */
  lemma {:induction false} LiveUntilFreed(trace: seq<HeapState>, ops: seq<Op>, i: nat, j: nat, a: nat)
    requires Run(trace, ops) && Tiled(trace[0]) && i <= j < |trace| && a in LiveBlocks(trace[i])
    requires forall k: nat | i <= k < j :: !ops[k].Frees(a)
    ensures a in LiveBlocks(trace[j]) && LiveBlocks(trace[j])[a] == LiveBlocks(trace[i])[a]
  {
    hide Tiled, Gives;
    if i < j {
      LiveUntilFreed(trace, ops, i, j - 1, a);
      RunKeepsTiling(trace, ops, j - 1);
      assert Completes(trace[j - 1], ops[j - 1], trace[j - 1 + 1]);
      StepKeepsBlock(trace[j - 1], ops[j - 1], trace[j], a);
    }
  }

  /** Two live blocks of one state lie in the region and share no byte. */
  lemma LiveBlocksDisjoint(base: Word, size: Word, trace: seq<HeapState>, ops: seq<Op>, i: nat, a: nat, b: nat)
    requires 0 < base && HEADER_SIZE <= size && base + size < TWO_64
    requires Run(trace, ops) && trace[0] == ResetState(base, size) && i < |trace|
    requires a in LiveBlocks(trace[i]) && b in LiveBlocks(trace[i]) && a < b
    ensures base <= a && a + HEADER_SIZE + LiveBlocks(trace[i])[a] <= b
    ensures b + HEADER_SIZE + LiveBlocks(trace[i])[b] <= base + size
  {
    RunFromReset(base, size, trace, ops, i);
    NextBlock(trace[i], a);
    NextBlock(trace[i], b);
    Disjoint(trace[i], a, b);
  }

  // --- when free of a live block halts ------------------------------------------------------

  /** Successive blocks of `path` are linked back, and all but the first are free. */
  ghost predicate BackPath(h: HeapState, path: seq<nat>)
  {
    && 0 < |path|
    && (forall i: nat | i < |path| :: path[i] in h.hdrs)
    && (forall i: nat | 0 < i < |path| :: !h.hdrs[path[i]].Used() && path[i] != 0 && path[i] == h.hdrs[path[i - 1]].prev)
  }

  predicate Dangles(h: HeapState, a: nat)
  {
    a in h.hdrs && h.hdrs[a].prev != 0 && h.hdrs[a].prev !in h.hdrs
  }

  lemma {:induction false} PathToDangling(h: HeapState, a: nat) returns (path: seq<nat>)
    requires PrevBelow(h) && a in h.hdrs && BackFrom(h, a).None?
    ensures BackPath(h, path) && path[0] == a && Dangles(h, path[|path| - 1])
  {
    var prev := h.hdrs[a].prev;
    if prev in h.hdrs {
      var rest := PathToDangling(h, prev);
      path := [a] + rest;
    } else {
      path := [a];
    }
  }

  lemma {:induction false} DanglingStops(h: HeapState, path: seq<nat>)
    requires PrevBelow(h) && BackPath(h, path) && Dangles(h, path[|path| - 1])
    ensures BackFrom(h, path[0]).None?
    decreases |path|
  {
    if |path| > 1 {
      var rest := path[1..];
      assert forall i: nat | i < |rest| :: rest[i] == path[i + 1];
      assert BackPath(h, rest);
      DanglingStops(h, rest);
    }
  }

  /**
    `free` of a live block halts exactly when the back links from it, through free blocks,
    lead to an address where there is no header.
   */
  lemma FreeHaltsOnDangling(h: HeapState, p: Word)
    requires Tiled(h) && p >= HEADER_SIZE && p - HEADER_SIZE in LiveBlocks(h)
    ensures PrevBelow(h)
    ensures
      var h1 := Release(h, p - HEADER_SIZE);
      Free(h, p).None? <==>
        exists path :: BackPath(h1, path) && path[0] == p - HEADER_SIZE && Dangles(h1, path[|path| - 1])
  {
    var a := p - HEADER_SIZE;
    var h1 := Release(h, a);
    TiledPrevBelow(h);
    NextBlock(h, a);
    ReleaseKeepsHeap(h, a);
    TiledPrevBelow(h1);
    if Free(h, p).None? {
      if BackFrom(h1, a).Some? {
        BackFromFree(h1, a);
        MergeKeepsHeap(h1, BackFrom(h1, a).value);
      }
      var path := PathToDangling(h1, a);
    }
    if path :| BackPath(h1, path) && path[0] == a && Dangles(h1, path[|path| - 1]) {
      DanglingStops(h1, path);
    }
  }

  // --- runs in which it cannot ------------------------------------------------------------------

  lemma TakeKeepsExact(h: HeapState, a: nat)
    requires Exact(h) && a in h.hdrs
    ensures Exact(Take(h, a))
  {
    ReflagTiles(h, a, USED);
    var h' := Take(h, a);
    forall x | x in h'.hdrs
      ensures BackLink(h', x)
    {
      assert BackLink(h, x);
    }
  }

  lemma BackKeepsExactIff(h: HeapState, a: nat, at: nat, size: Word)
    requires Exact(h) && a in h.hdrs && !h.hdrs[a].Used()
    requires a + 2 * HEADER_SIZE <= at && at + size == a + HEADER_SIZE + h.hdrs[a].length
    ensures Exact(CutBack(h, a, at, size)) <==> h.hdrs[a].next == 0
  {
    NextBlock(h, a);
    var hd := h.hdrs[a];
    NotInside(h, a, at - HEADER_SIZE);
    CutKeepsExactIff(h, a, Header(FREE, at - a - 2 * HEADER_SIZE, hd.prev, at - HEADER_SIZE),
                     Header(USED, size, a, hd.next), CutBack(h, a, at, size));
  }

  lemma HeadCutKeepsExactIff(h: HeapState, a: nat, at: nat)
    requires Exact(h) && a in h.hdrs && !h.hdrs[a].Used()
    requires a + 2 * HEADER_SIZE <= at <= a + HEADER_SIZE + h.hdrs[a].length < TWO_64
    ensures Exact(HeadCut(h, a, at)) <==> h.hdrs[a].next == 0
  {
    NextBlock(h, a);
    var hd := h.hdrs[a];
    NotInside(h, a, at - HEADER_SIZE);
    CutKeepsExactIff(h, a, Header(FREE, at - a - 2 * HEADER_SIZE, hd.prev, at - HEADER_SIZE),
                     Header(FREE, a + HEADER_SIZE + hd.length - at, a, hd.next), HeadCut(h, a, at));
  }

  lemma MiddleKeepsExactIff(h: HeapState, a: nat, at: nat, size: Word)
    requires Exact(h) && a in h.hdrs && !h.hdrs[a].Used()
    requires a + 2 * HEADER_SIZE <= at && at + size + HEADER_SIZE <= a + HEADER_SIZE + h.hdrs[a].length
    ensures Exact(CutMiddle(h, a, at, size)) <==> h.hdrs[a].next == 0
  {
    NextBlock(h, a);
    var hd, mid: Word, end: Word := h.hdrs[a], at - HEADER_SIZE, at + size;
    var rest: Word := a + HEADER_SIZE + hd.length - at;
    var h1, h2 := HeadCut(h, a, at), CutMiddle(h, a, at, size);
    HeadCutKeepsExactIff(h, a, at);
    if hd.next == 0 {
      NotInside(h1, mid, end);
      CutMiddleShape(h, a, at, size, h1, h1.(hdrs := h1.hdrs[mid as nat := Header(USED, size, a, end)]
                                                            [end as nat := Header(FREE, rest - size - HEADER_SIZE, mid, 0)]));
      CutKeepsExactIff(h1, mid, Header(USED, size, a, end), Header(FREE, rest - size - HEADER_SIZE, mid, 0), h2);
    } else {
      NextBlock(h, hd.next);
      assert BackLink(h, a);
      assert !BackLink(h2, end);
    }
  }

  lemma CommitKeepsExactIff(h: HeapState, a: nat, size: Word, align: Word)
    requires Exact(h) && a in h.hdrs && PowerOfTwo(align) && Commit(h, a, size, align).Got? && CutFits(h, a, size, align)
    ensures Exact(Commit(h, a, size, align).heap) <==> CutOf(h, a, size, align) == Whole || h.hdrs[a].next == 0
  {
    CutOfFinds(h, a, size, align);
    match CutOf(h, a, size, align) {
      case Whole => TakeKeepsExact(h, a);
      case Front => SplitKeepsExactIff(h, a, size);
      case Middle(at) => MiddleKeepsExactIff(h, a, at, size);
      case Back(at) => BackKeepsExactIff(h, a, at, size);
    }
  }

  /** A block that `op` cuts is the last one; a block taken whole may be any. */
  ghost predicate CutsLast(h: HeapState, op: Op)
  {
    match op
    case AllocOp(size) =>
      var r := FirstFit(h, Chain(h), size);
      r.Some? ==> h.hdrs[r.value].length == size || h.hdrs[r.value].next == 0
    case AlignedOp(size, align) =>
      var r := FirstCut(h, Chain(h), size, align);
      r.Some? ==> CutOf(h, r.value, size, align) == Whole || h.hdrs[r.value].next == 0
    case _ => true
  }

  lemma AllocKeepsExactIff(h: HeapState, size: Word)
    requires Exact(h) && Fits(h, AllocOp(size))
    ensures Exact(Alloc(h, size).0) <==> CutsLast(h, AllocOp(size))
  {
    var r := FirstFit(h, Chain(h), size);
    if size + HEADER_SIZE >= TWO_64 {
      OverflowTakesNothing(h, size);
    } else if r.Some? {
      if h.hdrs[r.value].length > size + HEADER_SIZE {
        SplitKeepsExactIff(h, r.value, size);
      } else {
        TakeKeepsExact(h, r.value);
      }
    }
  }

  /** An operation that returns and fits keeps exact links exact if and only if no block it cuts has a successor. */
  lemma StepKeepsExactIff(h: HeapState, op: Op, h': HeapState)
    requires Exact(h) && Completes(h, op, h')
    ensures Exact(h') <==> CutsLast(h, op)
  {
    match op {
      case AllocOp(size) => AllocKeepsExactIff(h, size);
      case AlignedOp(size, align) =>
        var r := FirstCut(h, Chain(h), size, align);
        if r.Some? {
          CommitKeepsExactIff(h, r.value, size, align);
        }
      case FreeOp(p) => FreeKeepsHeap(h, p); FreeKeepsExact(h, p);
      case FreeCheckedOp(p, sz) => FreeKeepsHeap(h, p); FreeKeepsExact(h, p);
    }
  }

  lemma ResetIsExact(base: Word, size: Word)
    requires 0 < base && HEADER_SIZE <= size && base + size < TWO_64
    ensures Exact(ResetState(base, size))
  {
    ResetTiles(base, size);
  }

  /**
    As long as every cut of a run is of the last block, links stay exact, and `free` of any live block completes in
    every state.
   */
  lemma {:induction false} ExactRunNeverHalts(trace: seq<HeapState>, ops: seq<Op>, i: nat, p: Word)
    requires Run(trace, ops) && Exact(trace[0]) && i < |trace|
    requires forall j: nat | j < |ops| :: CutsLast(trace[j], ops[j])
    ensures Exact(trace[i])
    ensures p >= HEADER_SIZE && p - HEADER_SIZE in LiveBlocks(trace[i]) ==> PrevBelow(trace[i]) && Free(trace[i], p).Some?
  {
    hide CutsLast, Completes, Tiled;
    if i > 0 {
      ExactRunNeverHalts(trace, ops, i - 1, p);
      assert Completes(trace[i - 1], ops[i - 1], trace[i - 1 + 1]) && CutsLast(trace[i - 1], ops[i - 1]);
      StepKeepsExactIff(trace[i - 1], ops[i - 1], trace[i]);
    }
    if p >= HEADER_SIZE && p - HEADER_SIZE in LiveBlocks(trace[i]) {
      FreeKeepsExact(trace[i], p);
    }
  }

  /** A run from an exactly linked heap stays so in every state if and only if all of its cuts are of the last block. */
  lemma ExactRunIff(trace: seq<HeapState>, ops: seq<Op>)
    requires Run(trace, ops) && Exact(trace[0])
    ensures (forall i: nat | i < |trace| :: Exact(trace[i])) <==> (forall i: nat | i < |ops| :: CutsLast(trace[i], ops[i]))
  {
    hide CutsLast, Completes, Exact;
    if forall i: nat | i < |trace| :: Exact(trace[i]) {
      forall i: nat | i < |ops|
        ensures CutsLast(trace[i], ops[i])
      {
        assert Completes(trace[i], ops[i], trace[i + 1]);
        StepKeepsExactIff(trace[i], ops[i], trace[i + 1]);
      }
    }
    if forall i: nat | i < |ops| :: CutsLast(trace[i], ops[i]) {
      forall i: nat | i < |trace|
        ensures Exact(trace[i])
      {
        ExactRunNeverHalts(trace, ops, i, 0);
      }
    }
  }

  // --- a run that gets there ------------------------------------------------------------------

  lemma AllocChooses(h: HeapState, size: Word, a: nat)
    requires Tiled(h) && a in h.hdrs && Accepts(h.hdrs[a], size)
    requires forall b | b in h.hdrs && b < a :: !Accepts(h.hdrs[b], size)
    ensures Alloc(h, size) == (Place(h, a, size), Some(a + HEADER_SIZE))
  {
    AllocFindsLowest(h, size);
  }

  /** `free` of a block whose neighbours, as linked, are in use or absent. */
  lemma FreeAlone(h: HeapState, p: Word, a: nat)
    requires PrevBelow(h) && a in h.hdrs && h.hdrs[a].Used() && p == a + HEADER_SIZE
    requires var prev := h.hdrs[a].prev; prev == 0 || (prev != a && prev in h.hdrs && h.hdrs[prev].Used())
    requires var next := h.hdrs[a].next; next == 0 || (next != a && next in h.hdrs && h.hdrs[next].Used())
    ensures Free(h, p) == Some(Release(h, a))
  {
    var h1 := Release(h, a);
    assert BackFrom(h1, a) == Some(a);
    assert Merge(h1, a) == Some(h1);
  }

  function At(hdrs: map<nat, Header>): HeapState
  {
    HeapState(4096, 488, hdrs)
  }

  /** Some run from `reset` on [base, base + size) ends in `h`. */
  ghost predicate Reachable(base: Word, size: Word, h: HeapState)
  {
    exists trace, ops :: Run(trace, ops) && trace[0] == ResetState(base, size) && trace[|ops|] == h
  }

  lemma ReachStep(base: Word, size: Word, h: HeapState, op: Op, h': HeapState)
    requires Reachable(base, size, h) && Completes(h, op, h')
    ensures Reachable(base, size, h')
  {
    hide Completes, ResetState;
    var trace, ops :| Run(trace, ops) && trace[0] == ResetState(base, size) && trace[|ops|] == h;
    var trace', ops' := trace + [h'], ops + [op];
    forall i: nat | i < |ops'|
      ensures Completes(trace'[i], ops'[i], trace'[i + 1])
    {
      if i < |ops| {
        assert Completes(trace[i], ops[i], trace[i + 1]);
      }
    }
    assert Run(trace', ops') && trace'[|ops'|] == h';
  }

  lemma ReachableIsTiled(base: Word, size: Word, h: HeapState)
    requires 0 < base && HEADER_SIZE <= size && base + size < TWO_64 && Reachable(base, size, h)
    ensures Tiled(h)
  {
    var trace, ops :| Run(trace, ops) && trace[0] == ResetState(base, size) && trace[|ops|] == h;
    RunFromReset(base, size, trace, ops, |ops|);
  }

  // Three blocks X, Y and S fill a fresh heap. Y is returned and allocated again in two
  // parts, and the first part and then X are returned.

  function State(i: nat): HeapState
  {
    match i
    case 0 => ResetState(4096, 488)
    case 1 => At(map[4096 := Header(USED, 96, 0, 4224), 4224 := Header(FREE, 328, 4096, 0)])
    case 2 => At(map[4096 := Header(USED, 96, 0, 4224), 4224 := Header(USED, 200, 4096, 4456),
                     4456 := Header(FREE, 96, 4224, 0)])
    case 3 => At(map[4096 := Header(USED, 96, 0, 4224), 4224 := Header(USED, 200, 4096, 4456),
                     4456 := Header(USED, 96, 4224, 0)])
    case 4 => At(map[4096 := Header(USED, 96, 0, 4224), 4224 := Header(FREE, 200, 4096, 4456),
                     4456 := Header(USED, 96, 4224, 0)])
    case 5 => At(map[4096 := Header(USED, 96, 0, 4224), 4224 := Header(USED, 100, 4096, 4356),
                     4356 := Header(FREE, 68, 4224, 4456), 4456 := Header(USED, 96, 4224, 0)])
    case 6 => At(map[4096 := Header(USED, 96, 0, 4224), 4224 := Header(USED, 100, 4096, 4356),
                     4356 := Header(USED, 68, 4224, 4456), 4456 := Header(USED, 96, 4224, 0)])
    case 7 => At(map[4096 := Header(USED, 96, 0, 4224), 4224 := Header(FREE, 100, 4096, 4356),
                     4356 := Header(USED, 68, 4224, 4456), 4456 := Header(USED, 96, 4224, 0)])
    case _ => At(map[4096 := Header(FREE, 228, 0, 4356),
                     4356 := Header(USED, 68, 4096, 4456), 4456 := Header(USED, 96, 4224, 0)])
  }

  /** `alloc` of `size` bytes takes the block at `a`, and this gives `h'`. */
  ghost predicate Allocates(h: HeapState, size: Word, a: nat, h': HeapState)
  {
    && size + HEADER_SIZE < TWO_64
    && a in h.hdrs && Accepts(h.hdrs[a], size)
    && (forall b | b in h.hdrs && b < a :: !Accepts(h.hdrs[b], size))
    && Place(h, a, size) == h'
  }

  lemma ReachAlloc(h: HeapState, size: Word, a: nat, h': HeapState)
    requires Reachable(4096, 488, h) && Allocates(h, size, a, h')
    ensures Reachable(4096, 488, h')
  {
    ReachableIsTiled(4096, 488, h);
    AllocChooses(h, size, a);
    ReachStep(4096, 488, h, AllocOp(size), h');
  }

  lemma ReachFree(h: HeapState, p: Word, h': HeapState)
    requires Reachable(4096, 488, h) && Gives(h, p, h')
    ensures Reachable(4096, 488, h')
  {
    ReachStep(4096, 488, h, FreeOp(p), h');
  }

  lemma XAllocated()
    ensures Reachable(4096, 488, State(1))
  {
    assert Run([State(0)], []);
    assert Place(State(0), 4096, 96).hdrs == State(1).hdrs;
    ReachAlloc(State(0), 96, 4096, State(1));
  }

  lemma YAllocated()
    ensures Reachable(4096, 488, State(2))
  {
    XAllocated();
    assert Place(State(1), 4224, 200).hdrs == State(2).hdrs;
    ReachAlloc(State(1), 200, 4224, State(2));
  }

  lemma SAllocated()
    ensures Reachable(4096, 488, State(3))
  {
    YAllocated();
    assert Place(State(2), 4456, 96).hdrs == State(3).hdrs;
    ReachAlloc(State(2), 96, 4456, State(3));
  }

  lemma YFreed()
    ensures Reachable(4096, 488, State(4))
  {
    SAllocated();
    FreeAlone(State(3), 4256, 4224);
    assert Release(State(3), 4224).hdrs == State(4).hdrs;
    ReachFree(State(3), 4256, State(4));
  }

  lemma YSplit()
    ensures Reachable(4096, 488, State(5))
  {
    YFreed();
    assert Place(State(4), 4224, 100).hdrs == State(5).hdrs;
    ReachAlloc(State(4), 100, 4224, State(5));
  }

  lemma RestOfYTaken()
    ensures Reachable(4096, 488, State(6))
  {
    YSplit();
    assert Place(State(5), 4356, 68).hdrs == State(6).hdrs;
    ReachAlloc(State(5), 68, 4356, State(6));
  }

  lemma YFreedAgain()
    ensures Reachable(4096, 488, State(7))
  {
    hide Reachable;
    RestOfYTaken();
    FreeAlone(State(6), 4256, 4224);
    assert Release(State(6), 4224).hdrs == State(7).hdrs;
    ReachFree(State(6), 4256, State(7));
  }

  /** The last state but one, with X free and not yet joined to Y. */
  function XReleased(): HeapState
  {
    At(map[4096 := Header(FREE, 96, 0, 4224), 4224 := Header(FREE, 100, 4096, 4356),
           4356 := Header(USED, 68, 4224, 4456), 4456 := Header(USED, 96, 4224, 0)])
  }

  lemma XIsReleased()
    ensures 4096 in State(7).hdrs && Release(State(7), 4096) == XReleased()
  {
    assert Release(State(7), 4096).hdrs == XReleased().hdrs;
  }

  lemma XBeforeY(h: HeapState)
    requires h == XReleased()
    ensures 4096 in h.hdrs && h.hdrs[4096].next == 4224 && 4224 in h.hdrs && !h.hdrs[4224].Used() && Absorb(h, 4096) == State(8)
  {
    assert Absorb(h, 4096).hdrs == State(8).hdrs;
  }

  lemma XBeforeUsed()
    ensures 4096 in State(8).hdrs && Merge(State(8), 4096) == Some(State(8))
  {
  }

  lemma XAbsorbsY()
    ensures Merge(Release(State(7), 4096), 4096) == Some(State(8))
  {
    var h := XReleased();
    XIsReleased();
    XBeforeY(h);
    XBeforeUsed();
    hide State, Release, Absorb, XReleased;
    MergeStep(h, 4096, State(8));
  }

  /** `free` of the block at the base, which has nothing to its left. */
  lemma FreeFirst(h: HeapState, p: Word, a: nat, h': HeapState)
    requires a in h.hdrs && h.hdrs[a].Used() && h.hdrs[a].prev == 0 && p == a + HEADER_SIZE
    requires PrevBelow(h) && Merge(Release(h, a), a) == Some(h')
    ensures Gives(h, p, h')
  {
    assert BackFrom(Release(h, a), a) == Some(a);
  }

  lemma XFreed()
    ensures Reachable(4096, 488, State(8))
  {
    YFreedAgain();
    XAbsorbsY();
    ReachFreeFirst(State(7), 4128, 4096, State(8));
  }

  lemma ReachFreeFirst(h: HeapState, p: Word, a: nat, h': HeapState)
    requires a in h.hdrs && h.hdrs[a].Used() && h.hdrs[a].prev == 0 && p == a + HEADER_SIZE
    requires Merge(Release(h, a), a) == Some(h')
    requires Reachable(4096, 488, h)
    ensures Reachable(4096, 488, h')
  {
    ReachableIsTiled(4096, 488, h);
    TiledPrevBelow(h);
    FreeFirst(h, p, a, h');
    ReachFree(h, p, h');
  }

  /**
    A run of completing operations after which a live block cannot be freed: its back link,
    left stale by a split, leads to a header that coalescing has since wiped.
   */
  lemma StaleLinkHaltsFree()
    ensures exists h, p: Word ::
      && Reachable(4096, 488, h) && p >= HEADER_SIZE && p - HEADER_SIZE in LiveBlocks(h)
      && PrevBelow(h) && Free(h, p) == None
  {
    XFreed();
    SCannotBeReturned();
    var p: Word := 4488;
    assert Free(State(8), p) == None;
  }

  lemma SCannotBeReturned()
    ensures PrevBelow(State(8)) && 4456 in LiveBlocks(State(8)) && Free(State(8), 4488) == None
  {
  }
}
