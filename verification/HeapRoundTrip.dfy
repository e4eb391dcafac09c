/** `allocAligned` and then `free`: all four cuts are undone. */
module HeapRoundTrip {
  import opened Words
  import opened Wrappers
  import opened Algorithm
  import opened HeapModel
  import opened HeapSafety
  import opened HeapAligned
  import opened HeapCoalescing

  /** Once the block behind the padding is free, there is one cut less. */
  lemma ReleaseOfBack(h: HeapState, a: nat, at: nat, size: Word)
    requires Tiled(h) && a in h.hdrs && !h.hdrs[a].Used()
    requires a + 2 * HEADER_SIZE <= at && at + size == a + HEADER_SIZE + h.hdrs[a].length < TWO_64
    ensures at - HEADER_SIZE in CutBack(h, a, at, size).hdrs && CutBack(h, a, at, size).hdrs[at - HEADER_SIZE].Used()
    ensures Release(CutBack(h, a, at, size), at - HEADER_SIZE) == CutFree(h, a, at - a - 2 * HEADER_SIZE)
  {
    assert Release(CutBack(h, a, at, size), at - HEADER_SIZE).hdrs == CutFree(h, a, at - a - 2 * HEADER_SIZE).hdrs;
  }

  /** The walk back from the remainder of a cut goes to its front part, which absorbs it. */
  lemma CutFreeJoins(h: HeapState, a: nat, size: Word)
    requires Exact(h) && NoAdjacentFree(h) && a in h.hdrs && !h.hdrs[a].Used() && HasRoom(h, a, size)
    requires a + HEADER_SIZE + size < TWO_64
    ensures var h2, n := CutFree(h, a, size), a + HEADER_SIZE + size;
      a in h2.hdrs && n in h2.hdrs && PrevBelow(h2) && BackFrom(h2, a) == Some(a) && BackFrom(h2, n) == Some(a) && Merge(h2, a) == Some(h)
  {
    hide Tiled, BackLink, NoAdjacentFree, FreePair, Absorb;
    ReleaseOfSplit(h, a, size);
    AbsorbUndoesCut(h, a, size);
    NothingFreeBefore(h, a);
    NextBlock(h, a);
    var h2 := CutFree(h, a, size);
    assert BackFrom(h2, a) == Some(a);
    MergesOnce(h2, a);
  }

  lemma GrantsTiled(h: HeapState, h': HeapState, p: nat, size: nat)
    requires Grants(h, h', p, size)
    ensures Tiled(h') && PrevBelow(h')
  {
    TiledPrevBelow(h');
  }

  lemma BackThenFree(h: HeapState, a: nat, at: nat, size: Word, p: Word)
    requires Exact(h) && NoAdjacentFree(h) && a in h.hdrs && !h.hdrs[a].Used() && p == at
    requires a + 2 * HEADER_SIZE <= at && at + size == a + HEADER_SIZE + h.hdrs[a].length
    ensures Gives(CutBack(h, a, at, size), p, h)
  {
    hide CutBack, CutFree, Exact, NoAdjacentFree, Tiled, Merge, BackFrom, PrevBelow, Grants, Gives, Release;
    ExactIsTiled(h);
    BaseIsBlock(h);
    NextBlock(h, a);
    BackGrants(h, a, at, size);
    GrantsTiled(h, CutBack(h, a, at, size), at, size);
    ReleaseOfBack(h, a, at, size);
    CutFreeJoins(h, a, at - a - 2 * HEADER_SIZE);
    FreeFrom(CutBack(h, a, at, size), p, at - HEADER_SIZE, a, h);
  }

  /** `free` of the block `b`, from which the walk back goes to `s`. */
  lemma FreeFrom(h: HeapState, p: Word, b: nat, s: nat, h': HeapState)
    requires PrevBelow(h) && b in h.hdrs && h.hdrs[b].Used() && p == b + HEADER_SIZE
    requires PrevBelow(Release(h, b)) && BackFrom(Release(h, b), b) == Some(s) && Merge(Release(h, b), s) == Some(h')
    ensures Gives(h, p, h')
  {
    hide BackFrom, Merge, PrevBelow;
  }

  /** The heap with both cuts made and all three parts free. */
  function ThreeFree(h: HeapState, a: nat, at: nat, size: Word): HeapState
    requires a in h.hdrs && a + 2 * HEADER_SIZE <= at
    requires at + size + HEADER_SIZE <= a + HEADER_SIZE + h.hdrs[a].length < TWO_64
  {
    var hd, mid: Word, end: Word := h.hdrs[a], at - HEADER_SIZE, at + size;
    h.(hdrs := h.hdrs[a := Header(FREE, at - a - 2 * HEADER_SIZE, hd.prev, mid)]
                     [mid as nat := Header(FREE, size, a, end)]
                     [end as nat := Header(FREE, a + hd.length - end, mid, hd.next)])
  }

  lemma ReleaseOfMiddle(h: HeapState, a: nat, at: nat, size: Word)
    requires Tiled(h) && a in h.hdrs && !h.hdrs[a].Used() && a + 2 * HEADER_SIZE <= at
    requires at + size + HEADER_SIZE <= a + HEADER_SIZE + h.hdrs[a].length < TWO_64
    ensures var h', mid := CutMiddle(h, a, at, size), at - HEADER_SIZE;
      mid in h'.hdrs && h'.hdrs[mid].Used() && Release(h', mid) == ThreeFree(h, a, at, size)
  {
    hide Tiled;
    var h', mid := CutMiddle(h, a, at, size), at - HEADER_SIZE;
    assert Release(h', mid).hdrs == ThreeFree(h, a, at, size).hdrs;
  }

  /** The padding absorbs the middle block, and the remainder after it is left. */
  lemma PaddingAbsorbs(h: HeapState, a: nat, at: nat, size: Word)
    requires Tiled(h) && a in h.hdrs && a + 2 * HEADER_SIZE <= at
    requires at + size + HEADER_SIZE <= a + HEADER_SIZE + h.hdrs[a].length < TWO_64
    ensures var h1 := ThreeFree(h, a, at, size);
      h1.hdrs[a].next in h1.hdrs && Absorb(h1, a) == CutFree(h, a, at + size - a - HEADER_SIZE)
  {
    NotInside(h, a, at - HEADER_SIZE);
    hide Tiled;
    var h1 := ThreeFree(h, a, at, size);
    assert Absorb(h1, a).hdrs == CutFree(h, a, at + size - a - HEADER_SIZE).hdrs;
  }

  lemma ThreeFreeWalk(h: HeapState, a: nat, at: nat, size: Word)
    requires Exact(h) && NoAdjacentFree(h) && a in h.hdrs && !h.hdrs[a].Used() && a + 2 * HEADER_SIZE <= at
    requires at + size + HEADER_SIZE <= a + HEADER_SIZE + h.hdrs[a].length < TWO_64
    requires PrevBelow(ThreeFree(h, a, at, size))
    ensures BackFrom(ThreeFree(h, a, at, size), at - HEADER_SIZE) == Some(a)
    ensures var h1 := ThreeFree(h, a, at, size);
      h1.hdrs[a].next in h1.hdrs && (a in Absorb(h1, a).hdrs ==> Merge(h1, a) == Merge(Absorb(h1, a), a))
  {
    hide Tiled, BackLink, NoAdjacentFree, FreePair, Absorb;
    NothingFreeBefore(h, a);
    NoHeaderAtZero(h);
    WalksOverPadding(ThreeFree(h, a, at, size), a, at - HEADER_SIZE);
  }

  /** The walk back from `mid` passes the free padding at `a`, and nothing free comes before that. */
  lemma WalksOverPadding(h: HeapState, a: nat, mid: nat)
    requires PrevBelow(h) && mid in h.hdrs && a in h.hdrs && 0 < a && h.hdrs[mid].prev == a && !h.hdrs[a].Used()
    requires var prev := h.hdrs[a].prev; prev == 0 || (prev in h.hdrs && h.hdrs[prev].Used())
    ensures BackFrom(h, mid) == Some(a)
  {
    assert BackFrom(h, a) == Some(a);
  }

  lemma MiddleThenFree(h: HeapState, a: nat, at: nat, size: Word, p: Word)
    requires Exact(h) && NoAdjacentFree(h) && a in h.hdrs && !h.hdrs[a].Used() && p == at
    requires a + 2 * HEADER_SIZE <= at && at + size + HEADER_SIZE <= a + HEADER_SIZE + h.hdrs[a].length
    ensures Gives(CutMiddle(h, a, at, size), p, h)
  {
    hide CutMiddle, CutFree, Exact, NoAdjacentFree, Tiled, PrevBelow, Release, Absorb, Merge, BackFrom, Grants, Gives, ThreeFree;
    ExactIsTiled(h);
    BaseIsBlock(h);
    NextBlock(h, a);
    MiddleGrants(h, a, at, size);
    var h', mid := CutMiddle(h, a, at, size), at - HEADER_SIZE;
    GrantsTiled(h, h', at, size);
    ReleaseOfMiddle(h, a, at, size);
    ReleaseKeepsPrev(h', mid);
    PaddingAbsorbs(h, a, at, size);
    CutFreeJoins(h, a, at + size - a - HEADER_SIZE);
    ThreeFreeWalk(h, a, at, size);
    FreeFrom(h', p, mid, a, h);
  }

  lemma ReleaseKeepsPrev(h: HeapState, a: nat)
    requires PrevBelow(h) && a in h.hdrs
    ensures PrevBelow(Release(h, a))
  {
  }

  lemma CommitThenFree(h: HeapState, a: nat, size: Word, align: Word, h': HeapState, p: Word)
    requires Exact(h) && NoAdjacentFree(h) && a in h.hdrs && PowerOfTwo(align)
    requires CutFits(h, a, size, align) && Commit(h, a, size, align) == Got(h', p)
    ensures Gives(h', p, h)
  {
    CutOfFinds(h, a, size, align);
    match CutOf(h, a, size, align) {
      case Whole => TakeThenFree(h, a, p);
      case Front => SplitThenFree(h, a, size, p);
      case Middle(at) => MiddleThenFree(h, a, at, size, p);
      case Back(at) => BackThenFree(h, a, at, size, p);
    }
  }

  /**
    On an exactly linked heap without adjacent free blocks, freeing what a fitting `allocAligned` just
    returned gives the heap back, whichever of the four cuts it made.
   */
  lemma AlignedThenFree(h: HeapState, size: Word, align: Word, h': HeapState, p: Word)
    requires Exact(h) && NoAdjacentFree(h) && PowerOfTwo(align) && AllocAligned(h, size, align) == Got(h', p)
    requires CutFits(h, FirstCut(h, Chain(h), size, align).value, size, align)
    ensures PrevBelow(h') && Free(h', p) == Some(h)
  {
    CommitThenFree(h, FirstCut(h, Chain(h), size, align).value, size, align, h', p);
  }
}
