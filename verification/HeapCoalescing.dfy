/**
  What `free` does to a heap whose back links are exact: the maximal run of free blocks
  around the freed one becomes a single block, and `alloc` followed by `free` is undone.
 */
module HeapCoalescing {
  import opened Words
  import opened Wrappers
  import opened HeapModel
  import opened HeapSafety

  predicate BackLink(h: HeapState, a: nat)
    requires a in h.hdrs
  {
    var n := h.hdrs[a].next;
    n in h.hdrs ==> h.hdrs[n].prev == a
  }

  /** Every block's successor links back to it. */
  ghost predicate Exact(h: HeapState)
  {
    && Tiled(h)
    && h.base in h.hdrs && h.hdrs[h.base].prev == 0
    && forall a | a in h.hdrs :: BackLink(h, a)
  }

  lemma ExactIsTiled(h: HeapState)
    requires Exact(h)
    ensures Tiled(h)
  {
  }

  predicate FreePair(h: HeapState, a: nat)
    requires a in h.hdrs
  {
    var n := h.hdrs[a].next;
    n in h.hdrs && !h.hdrs[a].Used() && !h.hdrs[n].Used()
  }

  ghost predicate NoAdjacentFree(h: HeapState)
  {
    forall a | a in h.hdrs :: !FreePair(h, a)
  }

  predicate UsedOrAbsent(h: HeapState, a: nat)
  {
    a in h.hdrs ==> h.hdrs[a].Used()
  }

  /** The blocks from `s` to `e` are all free. */
  ghost predicate IsRun(h: HeapState, s: nat, e: nat)
  {
    s in h.hdrs && e in h.hdrs && s <= e && forall x | x in h.hdrs && s <= x <= e :: !h.hdrs[x].Used()
  }

  ghost predicate IsMaximalRun(h: HeapState, s: nat, e: nat)
  {
    IsRun(h, s, e) && UsedOrAbsent(h, h.hdrs[s].prev) && UsedOrAbsent(h, h.hdrs[e].next)
  }

  /** Lengths of the blocks from `s` to `e`, and a header for each block after the first. */
  function RunLength(h: HeapState, s: nat, e: nat): nat
    requires s in h.hdrs
    decreases e - s
  {
    var n := h.hdrs[s].next;
    if s < n <= e && n in h.hdrs then h.hdrs[s].length + HEADER_SIZE + RunLength(h, n, e) else h.hdrs[s].length
  }

  /** The heap with the blocks from `s` to `e` made one, and the block after them linked back to it. */
  function Collapse(h: HeapState, s: nat, e: nat): HeapState
    requires s in h.hdrs && e in h.hdrs
  {
    var last := h.hdrs[e];
    h.(hdrs := map x | x in h.hdrs && !(s < x <= e) ::
         if x == s then h.hdrs[s].(length := Wrap(e + last.length - s), next := last.next)
         else if s < e && x == last.next then h.hdrs[x].(prev := Wrap(s))
         else h.hdrs[x])
  }

  function RunEnd(h: HeapState, a: nat): (e: nat)
    requires a in h.hdrs
    ensures e in h.hdrs && a <= e
    decreases h.base + h.size - a
  {
    var n := h.hdrs[a].next;
    if n in h.hdrs && a < n < h.base + h.size && !h.hdrs[n].Used() then RunEnd(h, n) else a
  }

  // --- walking forward ----------------------------------------------------------------------

  lemma {:induction false} RunEndIsMaximal(h: HeapState, a: nat)
    requires Tiled(h) && a in h.hdrs && !h.hdrs[a].Used()
    ensures IsRun(h, a, RunEnd(h, a)) && UsedOrAbsent(h, h.hdrs[RunEnd(h, a)].next)
    decreases h.base + h.size - a
  {
    NextBlock(h, a);
    var n := h.hdrs[a].next;
    if n in h.hdrs {
      NextBlock(h, n);
      if !h.hdrs[n].Used() {
        RunEndIsMaximal(h, n);
        forall x | x in h.hdrs && a <= x <= RunEnd(h, n)
          ensures !h.hdrs[x].Used()
        {
          if a < x { Disjoint(h, a, x); }
        }
      }
    }
  }

  /** A block's run ends where the run of the block after it ends, and joining the two keeps that end. */
  lemma {:induction false} RunEndAfterJoin(h: HeapState, a: nat, h': HeapState, x: nat)
    requires Tiled(h) && Joins(h, a, h') && x in h.hdrs && h.hdrs[a].next < x
    ensures x in h'.hdrs && RunEnd(h', x) == RunEnd(h, x)
    decreases h.base + h.size - x
  {
    NextBlock(h, a);
    NextBlock(h, x);
    var n := h.hdrs[x].next;
    if n in h.hdrs {
      NextBlock(h, n);
      RunEndAfterJoin(h, a, h', n);
      assert h'.hdrs[n].flags == h.hdrs[n].flags;
    }
  }

  /** Absorbing the last block of a run. */
  lemma CollapseLast(h: HeapState, a: nat, h': HeapState)
    requires Tiled(h) && Tiled(h') && Joins(h, a, h')
    ensures a in h'.hdrs && Collapse(h', a, a) == Collapse(h, a, h.hdrs[a].next)
  {
    var n := h.hdrs[a].next;
    NextBlock(h, a);
    NextBlock(h, n);
    NextBlock(h', a);
    OnlyBlockBetween(h, a, n);
    NoHeaderAtZero(h);
    assert Collapse(h', a, a).hdrs == Collapse(h, a, n).hdrs;
  }

  /** Absorbing a block of a run that goes on behind it. */
  lemma CollapseMore(h: HeapState, a: nat, h': HeapState, e: nat)
    requires Tiled(h) && Joins(h, a, h') && e in h.hdrs && h.hdrs[a].next < e
    ensures a in h'.hdrs && e in h'.hdrs && Collapse(h', a, e) == Collapse(h, a, e)
  {
    var n := h.hdrs[a].next;
    NextBlock(h, a);
    NextBlock(h, n);
    NextBlock(h, e);
    Disjoint(h, n, e);
    assert h'.hdrs[e].length == h.hdrs[e].length && h'.hdrs[e].next == h.hdrs[e].next;
    assert Collapse(h', a, e).hdrs == Collapse(h, a, e).hdrs;
  }

  lemma CollapseAfterJoin(h: HeapState, a: nat, h': HeapState)
    requires Tiled(h) && Tiled(h') && Joins(h, a, h') && !h.hdrs[a].Used() && !h.hdrs[h.hdrs[a].next].Used()
    ensures a in h'.hdrs && Collapse(h', a, RunEnd(h', a)) == Collapse(h, a, RunEnd(h, a))
  {
    var n := h.hdrs[a].next;
    NextBlock(h, a);
    NextBlock(h, n);
    var m := h.hdrs[n].next;
    assert RunEnd(h, a) == RunEnd(h, n);
    if m != 0 && !h.hdrs[m].Used() {
      NextBlock(h, m);
      RunEndAfterJoin(h, a, h', m);
      assert RunEnd(h', a) == RunEnd(h, a) == RunEnd(h, m);
      CollapseMore(h, a, h', RunEnd(h, m));
    } else {
      assert RunEnd(h, n) == n && RunEnd(h', a) == a;
      CollapseLast(h, a, h');
    }
  }

  lemma OnlyBlockBetween(h: HeapState, a: nat, n: nat)
    requires Tiled(h) && a in h.hdrs && h.hdrs[a].next == n && n in h.hdrs
    ensures forall x | x in h.hdrs && a < x <= n :: x == n
  {
    NextBlock(h, a);
    NextBlock(h, n);
    forall x | x in h.hdrs && a < x <= n
      ensures x == n
    {
      Disjoint(h, a, x);
    }
  }

  lemma {:induction false} MergeIsCollapse(h: HeapState, a: nat)
    requires Tiled(h) && a in h.hdrs && !h.hdrs[a].Used()
    ensures Merge(h, a) == Some(Collapse(h, a, RunEnd(h, a)))
    decreases |h.hdrs|
  {
    NextBlock(h, a);
    var n := h.hdrs[a].next;
    if n != 0 && !h.hdrs[n].Used() {
      var h' := Absorb(h, a);
      NextBlock(h, n);
      AbsorbShape(h, a);
      AbsorbKeepsHeap(h, a);
      MergeIsCollapse(h', a);
      CollapseAfterJoin(h, a, h');
    } else {
      assert Collapse(h, a, a).hdrs == h.hdrs;
    }
  }

  lemma {:induction false} RunLengthIsSpan(h: HeapState, s: nat, e: nat)
    requires Tiled(h) && s in h.hdrs && e in h.hdrs && s <= e
    ensures RunLength(h, s, e) == e + h.hdrs[e].length - s
    decreases e - s
  {
    NextBlock(h, s);
    if s < e {
      Disjoint(h, s, e);
      NextBlock(h, e);
      var n := h.hdrs[s].next;
      RunLengthIsSpan(h, n, e);
    } else if h.hdrs[s].next != 0 {
      assert e < h.hdrs[s].next;
    }
  }

  // --- walking back -------------------------------------------------------------------------

  lemma PrevBlock(h: HeapState, a: nat)
    requires Exact(h) && a in h.hdrs
    ensures
      var p := h.hdrs[a].prev;
      && (a == h.base ==> p == 0)
      && (a != h.base ==> p != 0 && p in h.hdrs && p < a && h.hdrs[p].next == a)
  {
    var c := Chain(h);
    var i :| 0 <= i < |c| && c[i] == a;
    if i > 0 {
      assert BlockAt(h, c, i - 1);
      assert BackLink(h, c[i - 1]);
      InRegion(h, c, i - 1);
      ChainAscends(h, c);
    }
  }

  lemma {:induction false} BackFromFindsRun(h: HeapState, a: nat)
    requires Exact(h) && PrevBelow(h) && a in h.hdrs && !h.hdrs[a].Used()
    ensures BackFrom(h, a).Some?
    ensures IsRun(h, BackFrom(h, a).value, a) && UsedOrAbsent(h, h.hdrs[BackFrom(h, a).value].prev)
  {
    PrevBlock(h, a);
    var p := h.hdrs[a].prev;
    NoHeaderAtZero(h);
    if p != 0 && !h.hdrs[p].Used() {
      BackFromFindsRun(h, p);
      OnlyBlockBetween(h, p, a);
    }
  }

  lemma NoHeaderAtZero(h: HeapState)
    requires Tiled(h)
    ensures 0 !in h.hdrs
  {
    if 0 in h.hdrs { NextBlock(h, 0); }
  }

  lemma ReleaseKeepsExact(h: HeapState, a: nat)
    requires Exact(h) && a in h.hdrs
    ensures Exact(Release(h, a))
  {
    ReleaseKeepsHeap(h, a);
    var h' := Release(h, a);
    forall x | x in h'.hdrs
      ensures BackLink(h', x)
    {
      assert BackLink(h, x);
    }
  }

  // --- the theorem on free --------------------------------------------------------------------

  /**
    On exact links `free` of a live block completes: the maximal run of free blocks around
    it becomes one block and nothing else changes but the back link of the block behind it.
   */
  lemma FreeCoalesces(h: HeapState, p: Word)
    requires Exact(h) && p >= HEADER_SIZE && p - HEADER_SIZE in LiveBlocks(h)
    ensures PrevBelow(h) && PrevBelow(Release(h, p - HEADER_SIZE))
    ensures
      var a := p - HEADER_SIZE;
      var h1 := Release(h, a);
      && BackFrom(h1, a).Some?
      && var s := BackFrom(h1, a).value;
      && var e := RunEnd(h1, s);
      && s <= a <= e && IsMaximalRun(h1, s, e)
      && Free(h, p) == Some(Collapse(h1, s, e))
      && Collapse(h1, s, e).hdrs[s].length == RunLength(h1, s, e)
  {
    hide Exact, Collapse, RunEnd, RunLength, BackLink;
    var a := p - HEADER_SIZE;
    ExactIsTiled(h);
    TiledPrevBelow(h);
    NextBlock(h, a);
    ReleaseKeepsHeap(h, a);
    ReleaseKeepsExact(h, a);
    TiledPrevBelow(Release(h, a));
    RunAround(Release(h, a), a);
  }

  lemma RunAround(h: HeapState, a: nat)
    requires Exact(h) && PrevBelow(h) && a in h.hdrs && !h.hdrs[a].Used()
    ensures
      && BackFrom(h, a).Some?
      && var s := BackFrom(h, a).value;
      && var e := RunEnd(h, s);
      && s <= a <= e && IsMaximalRun(h, s, e)
      && Merge(h, s) == Some(Collapse(h, s, e))
      && Collapse(h, s, e).hdrs[s].length == RunLength(h, s, e)
  {
    BackFromFindsRun(h, a);
    var s := BackFrom(h, a).value;
    MergeIsCollapse(h, s);
    RunEndIsMaximal(h, s);
    var e := RunEnd(h, s);
    RunReaches(h, s, e, a);
    RunLengthIsSpan(h, s, e);
    NextBlock(h, e);
    NextBlock(h, s);
  }

  lemma RunReaches(h: HeapState, s: nat, e: nat, a: nat)
    requires Tiled(h) && IsRun(h, s, a) && s <= e && e in h.hdrs && UsedOrAbsent(h, h.hdrs[e].next)
    ensures a <= e
  {
    if e < a {
      Disjoint(h, e, a);
      NextBlock(h, e);
      NextBlock(h, a);
    }
  }

  lemma CollapseKeepsExact(h: HeapState, s: nat, e: nat)
    requires Exact(h) && IsMaximalRun(h, s, e) && Tiled(Collapse(h, s, e))
    ensures Exact(Collapse(h, s, e))
  {
    var h' := Collapse(h, s, e);
    NextBlock(h, s);
    NextBlock(h, e);
    forall x | x in h'.hdrs
      ensures BackLink(h', x)
    {
      CollapseLink(h, s, e, x);
    }
  }

  lemma CollapseLink(h: HeapState, s: nat, e: nat, x: nat)
    requires Exact(h) && IsRun(h, s, e) && x in Collapse(h, s, e).hdrs
    ensures BackLink(Collapse(h, s, e), x)
  {
    NextBlock(h, s);
    NextBlock(h, e);
    NextBlock(h, x);
    assert BackLink(h, x) && BackLink(h, e);
    if x < s {
      Disjoint(h, x, s);
    } else if e < x {
      Disjoint(h, e, x);
    }
  }

  lemma CollapseSeparates(h: HeapState, a: nat, s: nat, e: nat)
    requires Exact(h) && NoAdjacentFree(h) && a in h.hdrs && s <= a <= e
    requires IsMaximalRun(Release(h, a), s, e)
    ensures NoAdjacentFree(Collapse(Release(h, a), s, e))
  {
    var h1 := Release(h, a);
    var h' := Collapse(h1, s, e);
    ReleaseKeepsExact(h, a);
    NextBlock(h1, e);
    forall x | x in h'.hdrs
      ensures !FreePair(h', x)
    {
      assert !FreePair(h, x) && BackLink(h1, x);
      NextBlock(h1, x);
      if x < s {
        Disjoint(h1, x, s);
      } else if e < x {
        Disjoint(h1, e, x);
      }
    }
  }

  /** `free` keeps exact links exact, and a heap without adjacent free blocks without them. */
  lemma FreeKeepsExact(h: HeapState, p: Word)
    requires Exact(h) && p >= HEADER_SIZE && p - HEADER_SIZE in LiveBlocks(h)
    ensures PrevBelow(h) && Free(h, p).Some? && Exact(Free(h, p).value)
    ensures NoAdjacentFree(h) ==> NoAdjacentFree(Free(h, p).value)
  {
    var a := p - HEADER_SIZE;
    var h1 := Release(h, a);
    FreeCoalesces(h, p);
    FreeKeepsHeap(h, p);
    ReleaseKeepsExact(h, a);
    var s := BackFrom(h1, a).value;
    CollapseKeepsExact(h1, s, RunEnd(h1, s));
    if NoAdjacentFree(h) {
      CollapseSeparates(h, a, s, RunEnd(h1, s));
    }
  }

  // --- free on any links ----------------------------------------------------------------------

  /** The walk back from the block at `a`, once it is free, ends at `s`. */
  ghost predicate WalksTo(h: HeapState, a: nat, s: nat)
  {
    a in h.hdrs && PrevBelow(Release(h, a)) && BackFrom(Release(h, a), a) == Some(s)
  }

  /** `h'` is `h` with the run of free blocks from `s` on made one block. */
  ghost predicate JoinsFrom(h: HeapState, s: nat, h': HeapState)
  {
    Tiled(h) && s in h.hdrs && !h.hdrs[s].Used() && h' == Collapse(h, s, RunEnd(h, s))
  }

  /** `free` of `p` completes and gives `h'`. */
  ghost predicate Gives(h: HeapState, p: Word, h': HeapState)
  {
    PrevBelow(h) && Free(h, p) == Some(h')
  }

  /** What was freed is the block at `a`, and `h'` is the heap with the run from `s` on made one block. */
  ghost predicate FreesRun(h: HeapState, a: nat, s: nat, h': HeapState)
  {
    && a in LiveBlocks(h) && WalksTo(h, a, s) && JoinsFrom(Release(h, a), s, h')
  }

  /** Whatever the links: a `free` that completes makes one block of the run that starts where the walk back ends. */
  lemma FreeIsCollapse(h: HeapState, p: Word, h': HeapState) returns (s: nat)
    requires Tiled(h) && Gives(h, p, h')
    ensures p >= HEADER_SIZE && FreesRun(h, p - HEADER_SIZE, s, h')
  {
    hide Tiled;
    FreeKeepsHeap(h, p);
    var a := p - HEADER_SIZE;
    var h1 := Release(h, a);
    ReleaseKeepsHeap(h, a);
    TiledPrevBelow(h1);
    BackFromFree(h1, a);
    s := BackFrom(h1, a).value;
    MergeIsCollapse(h1, s);
  }

  /** Collapsing a run from `s` to `e` leaves the pairs of free blocks outside of it. */
  lemma PairsOutside(h: HeapState, s: nat, e: nat, x: nat)
    requires Tiled(h) && s in h.hdrs && e in h.hdrs && s <= e && UsedOrAbsent(h, h.hdrs[e].next) && x in h.hdrs
    ensures !FreePair(h, e) && (x in Collapse(h, s, e).hdrs <==> x <= s || e < x)
    ensures x in Collapse(h, s, e).hdrs ==> (FreePair(Collapse(h, s, e), x) <==> x != s && FreePair(h, x))
  {
    hide Tiled;
    NoHeaderAtZero(h);
    NextBlock(h, e);
    NextBlock(h, x);
    if x < s {
      Disjoint(h, x, s);
    } else if e < x {
      Disjoint(h, e, x);
    }
  }

  /** `x` and the block after it are both free. */
  predicate HasPair(h: HeapState, x: nat)
  {
    x in h.hdrs && FreePair(h, x)
  }

  lemma CollapseLeavesPairs(h: HeapState, s: nat, e: nat, x: nat)
    requires Tiled(h) && s in h.hdrs && e in h.hdrs && s <= e && UsedOrAbsent(h, h.hdrs[e].next)
    ensures HasPair(Collapse(h, s, e), x) <==> HasPair(h, x) && !(s <= x < e)
  {
    hide Tiled, FreePair;
    if x in h.hdrs {
      PairsOutside(h, s, e, x);
    }
  }

  lemma JoinLeavesPairs(h: HeapState, s: nat, h': HeapState, x: nat)
    requires JoinsFrom(h, s, h')
    ensures s in h.hdrs && (HasPair(h', x) <==> HasPair(h, x) && !(s <= x < RunEnd(h, s)))
  {
    hide Tiled, HasPair, RunEnd, Collapse;
    RunEndIsMaximal(h, s);
    CollapseLeavesPairs(h, s, RunEnd(h, s), x);
  }

  /** The free blocks next to each other, once the block at `a` is free, all lie in the run from `s` on. */
  ghost predicate PairsInRun(h: HeapState, a: nat, s: nat)
    requires a in h.hdrs
  {
    s in h.hdrs && forall x: nat | HasPair(Release(h, a), x) :: s <= x < RunEnd(Release(h, a), s)
  }

  /** They all lie in the run that `free` joins. */
  ghost predicate JoinsAll(h: HeapState, a: nat)
    requires a in h.hdrs
  {
    exists s: nat :: WalksTo(h, a, s) && PairsInRun(h, a, s)
  }

  lemma WalksToOne(h: HeapState, a: nat, s: nat, t: nat)
    requires WalksTo(h, a, s) && WalksTo(h, a, t)
    ensures s == t
  {
  }

  /** A `free` that completes leaves no free block next to another if and only if it joins all there are. */
  lemma FreeSeparatesIff(h: HeapState, p: Word, h': HeapState)
    requires Tiled(h) && Gives(h, p, h')
    ensures p >= HEADER_SIZE && p - HEADER_SIZE in h.hdrs
    ensures NoAdjacentFree(h') <==> JoinsAll(h, p - HEADER_SIZE)
  {
    hide Tiled, Gives, WalksTo, JoinsFrom, JoinsAll, NoAdjacentFree;
    var s := FreeIsCollapse(h, p, h');
    RunSeparatesIff(h, p - HEADER_SIZE, s, h');
  }

  lemma RunSeparatesIff(h: HeapState, a: nat, s: nat, h': HeapState)
    requires FreesRun(h, a, s, h')
    ensures a in h.hdrs && (NoAdjacentFree(h') <==> JoinsAll(h, a))
  {
    var h1 := Release(h, a);
    NoPairs(h');
    hide HasPair, RunEnd, Tiled, JoinsFrom, NoAdjacentFree, WalksTo;
    forall x: nat
      ensures HasPair(h', x) <==> HasPair(h1, x) && !(s <= x < RunEnd(h1, s))
    {
      JoinLeavesPairs(h1, s, h', x);
    }
    if t: nat :| WalksTo(h, a, t) && PairsInRun(h, a, t) {
      WalksToOne(h, a, s, t);
    }
  }

  lemma NoPairs(h: HeapState)
    ensures NoAdjacentFree(h) <==> forall x: nat :: !HasPair(h, x)
  {
    if forall x: nat :: !HasPair(h, x) {
      forall a | a in h.hdrs
        ensures !FreePair(h, a)
      {
        assert !HasPair(h, a);
      }
    }
  }

  // --- alloc, then free -----------------------------------------------------------------------

  /** The heap after the split and the return of its front part: one free block cut in two. */
  function CutFree(h: HeapState, a: nat, size: Word): HeapState
    requires a in h.hdrs && a + HEADER_SIZE + size < TWO_64 && size + HEADER_SIZE <= h.hdrs[a].length
  {
    var hd := h.hdrs[a];
    var n: nat := a + HEADER_SIZE + size;
    h.(hdrs := h.hdrs[a := Header(FREE, size, hd.prev, n)][n := Header(FREE, hd.length - size - HEADER_SIZE, a, hd.next)])
  }

  lemma ReleaseOfSplit(h: HeapState, a: nat, size: Word)
    requires Tiled(h) && a in h.hdrs && !h.hdrs[a].Used() && HasRoom(h, a, size)
    ensures a + HEADER_SIZE + size < TWO_64 && Release(Split(h, a, size), a) == CutFree(h, a, size)
    ensures PrevBelow(Split(h, a, size)) && PrevBelow(CutFree(h, a, size))
  {
    NextBlock(h, a);
    TiledPrevBelow(h);
    SplitShape(h, a, size);
    assert Release(Split(h, a, size), a).hdrs == CutFree(h, a, size).hdrs;
  }

  /** Absorbing the remainder undoes the cut, the successor's back link included. */
  lemma AbsorbUndoesCut(h: HeapState, a: nat, size: Word)
    requires Exact(h) && a in h.hdrs && !h.hdrs[a].Used() && HasRoom(h, a, size)
    ensures a + HEADER_SIZE + size < TWO_64 && a + HEADER_SIZE + size !in h.hdrs
    ensures Absorb(CutFree(h, a, size), a) == h
  {
    NextBlock(h, a);
    NotInside(h, a, a + HEADER_SIZE + size);
    assert BackLink(h, a);
    var h3 := Absorb(CutFree(h, a, size), a);
    NoHeaderAtZero(h);
    assert h3.hdrs[a] == h.hdrs[a];
    assert h3.hdrs == h.hdrs;
  }

  lemma NothingFreeBefore(h: HeapState, a: nat)
    requires Exact(h) && NoAdjacentFree(h) && a in h.hdrs && !h.hdrs[a].Used()
    ensures var p := h.hdrs[a].prev; p == 0 || (p in h.hdrs && p < a && h.hdrs[p].Used())
    ensures var n := h.hdrs[a].next; n == 0 || (n in h.hdrs && h.hdrs[n].Used())
  {
    PrevBlock(h, a);
    NextBlock(h, a);
    NoHeaderAtZero(h);
    assert !FreePair(h, a);
    if h.hdrs[a].prev != 0 {
      assert !FreePair(h, h.hdrs[a].prev);
    }
  }

  lemma SplitThenFree(h: HeapState, a: nat, size: Word, p: Word)
    requires Exact(h) && NoAdjacentFree(h) && a in h.hdrs && !h.hdrs[a].Used() && HasRoom(h, a, size)
    requires p == a + HEADER_SIZE
    ensures PrevBelow(Split(h, a, size)) && Free(Split(h, a, size), p) == Some(h)
  {
    hide Tiled, BackLink, NoAdjacentFree, FreePair, Absorb;
    ReleaseOfSplit(h, a, size);
    AbsorbUndoesCut(h, a, size);
    NothingFreeBefore(h, a);
    NextBlock(h, a);
    var h2 := CutFree(h, a, size);
    assert Free(Split(h, a, size), p) == Merge(h2, a) by {
      assert BackFrom(h2, a) == Some(a);
    }
    MergesOnce(h2, a);
  }

  lemma MergeStep(h: HeapState, a: nat, h': HeapState)
    requires a in h.hdrs && h.hdrs[a].next != 0 && h.hdrs[a].next in h.hdrs && !h.hdrs[h.hdrs[a].next].Used()
    requires Absorb(h, a) == h' && a in h'.hdrs
    ensures Merge(h, a) == Merge(h', a)
  {
  }

  /** The merge ends after one round when the heap it leaves has nothing free behind the block. */
  lemma MergesOnce(h: HeapState, a: nat)
    requires a in h.hdrs && h.hdrs[a].next in h.hdrs && h.hdrs[a].next != 0 && !h.hdrs[h.hdrs[a].next].Used()
    requires var h' := Absorb(h, a);
      a in h'.hdrs && var n := h'.hdrs[a].next; n == 0 || (n in h'.hdrs && h'.hdrs[n].Used())
    ensures Merge(h, a) == Some(Absorb(h, a))
  {
    hide Absorb;
  }

  lemma TakeThenFree(h: HeapState, a: nat, p: Word)
    requires Exact(h) && NoAdjacentFree(h) && a in h.hdrs && !h.hdrs[a].Used()
    requires p == a + HEADER_SIZE
    ensures PrevBelow(Take(h, a)) && Free(Take(h, a), p) == Some(h)
  {
    TiledPrevBelow(h);
    NothingFreeBefore(h, a);
    assert Release(Take(h, a), a).hdrs == h.hdrs;
    assert BackFrom(h, a) == Some(a);
    assert Merge(h, a) == Some(h);
  }

  lemma PlaceThenFree(h: HeapState, a: nat, size: Word, p: Word)
    requires Exact(h) && NoAdjacentFree(h) && a in h.hdrs && Accepts(h.hdrs[a], size)
    requires size + HEADER_SIZE < TWO_64 && p == a + HEADER_SIZE
    ensures PrevBelow(Place(h, a, size)) && Free(Place(h, a, size), p) == Some(h)
  {
    if h.hdrs[a].length > Wrap(size + HEADER_SIZE) {
      SplitThenFree(h, a, size, p);
    } else {
      TakeThenFree(h, a, p);
    }
  }

  /**
    On an exactly linked heap without adjacent free blocks, freeing what `alloc` just
    returned gives the heap back: every header, with its flags, length and both links.
   */
  lemma AllocThenFree(h: HeapState, size: Word, h': HeapState, p: Word)
    requires Exact(h) && NoAdjacentFree(h) && size + HEADER_SIZE < TWO_64
    requires Alloc(h, size) == (h', Some(p as nat))
    ensures PrevBelow(h') && Free(h', p) == Some(h)
  {
    var a := FirstFit(h, Chain(h), size).value;
    assert h' == Place(h, a, size) && a + HEADER_SIZE == p;
    PlaceThenFree(h, a, size, p);
  }

  /** Cutting a block in two leaves the old successor's back link alone: links stay exact only if there is none. */
  lemma CutKeepsExactIff(h: HeapState, a: nat, front: Header, back: Header, h': HeapState)
    requires Exact(h) && Cuts(h, a, front, back, h') && front.prev == h.hdrs[a].prev && back.prev == a
    ensures Exact(h') <==> h.hdrs[a].next == 0
  {
    NextBlock(h, a);
    PrevBlock(h, a);
    CutTiles(h, a, front, back, h');
    NoHeaderAtZero(h);
    if h.hdrs[a].next == 0 {
      forall x | x in h'.hdrs
        ensures BackLink(h', x)
      {
        if x in h.hdrs { assert BackLink(h, x); NextBlock(h, x); }
      }
    } else {
      assert BackLink(h, a);
      assert !BackLink(h', front.next);
    }
  }

  lemma SplitKeepsExactIff(h: HeapState, a: nat, size: Word)
    requires Exact(h) && a in h.hdrs && !h.hdrs[a].Used() && HasRoom(h, a, size)
    ensures Exact(Split(h, a, size)) <==> h.hdrs[a].next == 0
  {
    var hd := h.hdrs[a];
    SplitShape(h, a, size);
    CutKeepsExactIff(h, a, Header(USED, size, hd.prev, a + HEADER_SIZE + size),
                     Header(FREE, hd.length - size - HEADER_SIZE, a, hd.next), Split(h, a, size));
  }
}
