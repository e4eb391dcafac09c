/**
  What every step of the allocator keeps: the tiling of the region, and the address
  and length of every live block.
 */
module HeapSafety {
  import opened Words
  import opened Wrappers
  import opened HeapModel

  // --- splitting ------------------------------------------------------------------------

  function InsertAfter(c: seq<nat>, i: nat, n: nat): (r: seq<nat>)
    requires i < |c|
    ensures |r| == |c| + 1
    ensures forall k: nat | k < |r| :: r[k] == if k <= i then c[k] else if k == i + 1 then n else c[k - 1]
  {
    c[..i + 1] + [n] + c[i + 1..]
  }

  /** Where the chain has room for a block of `size` bytes and one more header. */
  predicate HasRoom(h: HeapState, a: nat, size: nat)
    requires a in h.hdrs
  {
    size + HEADER_SIZE <= h.hdrs[a].length
  }

  /** `h'` is `h` with the block at `a` cut in two: `front` stays at `a`, `back` starts behind it. */
  ghost predicate Cuts(h: HeapState, a: nat, front: Header, back: Header, h': HeapState)
  {
    && a in h.hdrs && front.next !in h.hdrs && front.next == a + HEADER_SIZE + front.length
    && front.prev < a && back.prev < front.next
    && back.next == h.hdrs[a].next
    && front.next + HEADER_SIZE + back.length == a + HEADER_SIZE + h.hdrs[a].length
    && h' == h.(hdrs := h.hdrs[a := front][front.next as nat := back])
  }

  lemma CutBlock(h: HeapState, c: seq<nat>, i: nat, front: Header, back: Header, h': HeapState, k: nat)
    requires Linked(h, c) && i < |c| && Cuts(h, c[i], front, back, h')
    requires Ascending(c)
    requires k <= |c|
    ensures BlockAt(h', InsertAfter(c, i, front.next), k)
  {
    var c' := InsertAfter(c, i, front.next);
    assert BlockAt(h, c, i);
    if k <= i {
      assert BlockAt(h, c, k);
    } else if k > i + 1 {
      assert BlockAt(h, c, k - 1);
    }
  }

  /** Cutting a block in two keeps the chain, with the new block behind the old one. */
  lemma CutLinks(h: HeapState, c: seq<nat>, i: nat, front: Header, back: Header, h': HeapState)
    requires Linked(h, c) && i < |c| && Cuts(h, c[i], front, back, h')
    ensures Linked(h', InsertAfter(c, i, front.next))
  {
    ChainAscends(h, c);
    forall k: nat | k <= |c|
      ensures BlockAt(h', InsertAfter(c, i, front.next), k)
    {
      CutBlock(h, c, i, front, back, h', k);
    }
    InsertMembers(c, i, front.next);
  }

  lemma InsertMembers(c: seq<nat>, i: nat, n: nat)
    requires i < |c|
    ensures forall x :: x in InsertAfter(c, i, n) <==> x in c || x == n
  {
    assert c == c[..i + 1] + c[i + 1..];
  }

  /** The split of `alloc`, field by field. */
  lemma SplitShape(h: HeapState, a: nat, size: Word)
    requires Tiled(h) && a in h.hdrs && !h.hdrs[a].Used() && HasRoom(h, a, size)
    ensures a + HEADER_SIZE + size < TWO_64
    ensures var hd := h.hdrs[a];
      Cuts(h, a, Header(USED, size, hd.prev, a + HEADER_SIZE + size),
                 Header(FREE, hd.length - size - HEADER_SIZE, a, hd.next), Split(h, a, size))
  {
    NextBlock(h, a);
    NotInside(h, a, a + HEADER_SIZE + size);
  }

  /** No header lies inside a block. */
  lemma NotInside(h: HeapState, a: nat, x: nat)
    requires Tiled(h) && a in h.hdrs && a < x < a + HEADER_SIZE + h.hdrs[a].length
    ensures x !in h.hdrs
  {
    if x in h.hdrs {
      Disjoint(h, a, x);
    }
  }

  lemma CutTiles(h: HeapState, a: nat, front: Header, back: Header, h': HeapState)
    requires Tiled(h) && Cuts(h, a, front, back, h')
    ensures Tiled(h')
  {
    var c := Chain(h);
    var i :| 0 <= i < |c| && c[i] == a;
    CutLinks(h, c, i, front, back, h');
    LinkedIsChain(h', InsertAfter(c, i, front.next));
  }

  /** Changing only the flags of a block, to the one valid value or the other. */
  lemma ReflagTiles(h: HeapState, a: nat, flags: Flags)
    requires Tiled(h) && a in h.hdrs
    ensures Tiled(h.(hdrs := h.hdrs[a := h.hdrs[a].(flags := flags)]))
  {
    var c := Chain(h);
    var h' := h.(hdrs := h.hdrs[a := h.hdrs[a].(flags := flags)]);
    forall k: nat | k < |c|
      ensures BlockAt(h', c, k)
    {
      assert BlockAt(h, c, k);
    }
    LinkedIsChain(h', c);
  }

  /** `alloc` on a block it accepts keeps the tiling and adds exactly that block to the live ones. */
  lemma PlaceKeepsHeap(h: HeapState, a: nat, size: Word)
    requires Tiled(h) && a in h.hdrs && Accepts(h.hdrs[a], size) && size + HEADER_SIZE < TWO_64
    ensures Tiled(Place(h, a, size))
    ensures a !in LiveBlocks(h) && LiveBlocks(Place(h, a, size)) == LiveBlocks(h)[a := size]
  {
    NextBlock(h, a);
    if h.hdrs[a].length > Wrap(size + HEADER_SIZE) {
      var hd := h.hdrs[a];
      SplitShape(h, a, size);
      CutTiles(h, a, Header(USED, size, hd.prev, a + HEADER_SIZE + size),
                     Header(FREE, hd.length - size - HEADER_SIZE, a, hd.next), Split(h, a, size));
    } else {
      ReflagTiles(h, a, USED);
    }
  }

  /** First fit is lowest address first, since the chain is in address order. */
  lemma {:induction false} FirstFitLowest(h: HeapState, c: seq<nat>, size: Word, a: nat)
    requires forall x | x in c :: x in h.hdrs
    requires Ascending(c)
    requires a in c && Accepts(h.hdrs[a], size)
    ensures FirstFit(h, c, size).Some? && FirstFit(h, c, size).value <= a
  {
    if Accepts(h.hdrs[c[0]], size) {
      var i :| 0 <= i < |c| && c[i] == a;
      assert c[0] <= c[i];
    } else {
      FirstFitLowest(h, c[1..], size, a);
    }
  }

  lemma AllocFindsLowest(h: HeapState, size: Word)
    requires Tiled(h)
    ensures var (h', r) := Alloc(h, size);
      && (r.None? <==> forall a | a in h.hdrs :: !Accepts(h.hdrs[a], size))
      && (r.None? ==> h' == h)
      && (r.Some? ==> exists a :: a in h.hdrs && r.value == a + HEADER_SIZE && Accepts(h.hdrs[a], size)
                                && (forall b | b in h.hdrs && Accepts(h.hdrs[b], size) :: a <= b))
  {
    var c := Chain(h);
    ChainAscends(h, c);
    var f := FirstFit(h, c, size);
    if f.Some? {
      forall b | b in h.hdrs && Accepts(h.hdrs[b], size)
        ensures f.value <= b
      {
        FirstFitLowest(h, c, size, b);
      }
    }
  }

  /** The block at `a` is free, and of `size` bytes or longer than these and one more header. */
  predicate Takes(h: HeapState, a: nat, size: nat)
  {
    a in h.hdrs && h.hdrs[a].flags == 0x1A11_0C00 && (h.hdrs[a].length == size || h.hdrs[a].length > size + 32)
  }

  lemma AcceptsIsTakes(h: HeapState, a: nat, size: Word)
    requires Tiled(h) && size + 32 < TWO_64 && a in h.hdrs
    ensures Accepts(h.hdrs[a], size) <==> Takes(h, a, size)
  {
    FlagOperations(h.hdrs[a].flags);
  }

  /** None where no block is taken for `size`, or else the payload of the lowest that is. */
  ghost predicate LowestTaken(h: HeapState, size: nat, r: Option<nat>)
  {
    && (r.None? <==> forall a :: !Takes(h, a, size))
    && (r.Some? ==> r.value >= 32 && Takes(h, r.value - 32, size) && forall b | Takes(h, b, size) :: r.value - 32 <= b)
  }

  /**
    `alloc` is exactly first fit. It is none when no free block has the size asked for or more than that and 32 bytes, with
    the heap as it was; otherwise it is the address 32 bytes behind the header of the lowest such block.
   */
  lemma AllocIsFirstFit(h: HeapState, size: Word)
    requires Tiled(h) && size + 32 < TWO_64
    ensures var (h', r) := Alloc(h, size); LowestTaken(h, size, r) && (r.None? ==> h' == h)
  {
    AllocFindsLowest(h, size);
    hide Tiled, Alloc, Accepts, Takes;
    forall a | a in h.hdrs
      ensures Accepts(h.hdrs[a], size) <==> Takes(h, a, size)
    {
      AcceptsIsTakes(h, a, size);
    }
    TakesOnlyBlocks(h, size);
  }

  lemma TakesOnlyBlocks(h: HeapState, size: Word)
    ensures forall a | Takes(h, a, size) :: a in h.hdrs
  {
  }

  lemma AllocKeepsHeap(h: HeapState, size: Word)
    requires Tiled(h) && size + HEADER_SIZE < TWO_64
    ensures var (h', r) := Alloc(h, size);
      && Tiled(h') && h'.base == h.base && h'.size == h.size
      && (r.Some? ==> && r.value >= HEADER_SIZE && r.value - HEADER_SIZE !in LiveBlocks(h)
                      && LiveBlocks(h') == LiveBlocks(h)[r.value - HEADER_SIZE := size])
  {
    var f := FirstFit(h, Chain(h), size);
    if f.Some? {
      PlaceKeepsHeap(h, f.value, size);
    }
  }

  /**
    Sizes so large that `size + sizeof(HeapHeader)` wraps: `alloc` keeps the tiling exactly
    when no free block is longer than the wrapped sum.
   */
  lemma AllocOverflow(h: HeapState, size: Word)
    requires Tiled(h) && size + HEADER_SIZE >= TWO_64
    ensures Tiled(Alloc(h, size).0) <==>
            forall a | a in h.hdrs && !h.hdrs[a].Used() :: h.hdrs[a].length <= size + HEADER_SIZE - TWO_64
  {
    var c := Chain(h);
    var f := FirstFit(h, c, size);
    forall a | a in h.hdrs
      ensures h.hdrs[a].length != size
    {
      NextBlock(h, a);
    }
    if f.Some? {
      var a, h' := f.value, Alloc(h, size).0;
      assert h'.hdrs[a].length == size;
      if Tiled(h') {
        NextBlock(h', a);
      }
    }
  }

  /** 2^64 - 16 bytes from a fresh heap of 160: the sum with the header's size is 16, and the call succeeds. */
  lemma OverflowBreaksFreshHeap()
    ensures var (h', r) := Alloc(ResetState(4096, 160), TWO_64 - 16); r == Some(4128) && !Tiled(h')
  {
    var h := ResetState(4096, 160);
    OneBlock(4096, 160);
    assert Accepts(h.hdrs[4096], TWO_64 - 16);
    AllocFindsLowest(h, TWO_64 - 16);
    AllocOverflow(h, TWO_64 - 16);
  }

  // --- freeing ----------------------------------------------------------------------------

  lemma ReleaseKeepsHeap(h: HeapState, a: nat)
    requires Tiled(h) && a in h.hdrs
    ensures Tiled(Release(h, a)) && LiveBlocks(Release(h, a)) == LiveBlocks(h) - {a}
    ensures !Release(h, a).hdrs[a].Used()
  {
    NextBlock(h, a);
    ReflagTiles(h, a, FREE);
  }

  function RemoveAt(c: seq<nat>, i: nat): (r: seq<nat>)
    requires i < |c|
    ensures |r| == |c| - 1
    ensures forall k: nat | k < |r| :: r[k] == if k < i then c[k] else c[k + 1]
  {
    c[..i] + c[i + 1..]
  }

  lemma RemoveMembers(c: seq<nat>, i: nat)
    requires i < |c| && Ascending(c)
    ensures forall x :: x in RemoveAt(c, i) <==> x in c && x != c[i]
  {
    assert c == c[..i] + [c[i]] + c[i + 1..];
    forall x
      ensures x in c && x != c[i] ==> x in RemoveAt(c, i)
      ensures x in RemoveAt(c, i) ==> x in c && x != c[i]
    {
    }
  }

  /** `h'` is `h` with the block after `a` made part of `a`, field by field. */
  ghost predicate Joins(h: HeapState, a: nat, h': HeapState)
  {
    && a in h.hdrs && a < TWO_64 && h.hdrs[a].next in h.hdrs
    && var hd, nx := h.hdrs[a], h.hdrs[h.hdrs[a].next];
    && h'.base == h.base && h'.size == h.size
    && (forall x :: x in h'.hdrs <==> x in h.hdrs && x != hd.next)
    && (forall x | x in h'.hdrs && x != a && (nx.next == 0 || x != nx.next) :: h'.hdrs[x] == h.hdrs[x])
    && (nx.next != 0 ==> nx.next in h'.hdrs && h'.hdrs[nx.next] == h.hdrs[nx.next].(prev := a))
    && a in h'.hdrs && hd.length + HEADER_SIZE + nx.length < TWO_64
    && h'.hdrs[a] == hd.(length := hd.length + HEADER_SIZE + nx.length, next := nx.next)
  }

  lemma AbsorbShape(h: HeapState, a: nat)
    requires Tiled(h) && a in h.hdrs && h.hdrs[a].next in h.hdrs
    ensures Joins(h, a, Absorb(h, a)) && a < h.hdrs[a].next < h.base + h.size
  {
    NextBlock(h, a);
    NextBlock(h, h.hdrs[a].next);
  }

  lemma JoinBefore(h: HeapState, c: seq<nat>, i: nat, h': HeapState, k: nat)
    requires Linked(h, c) && i + 1 < |c| && Joins(h, c[i], h') && h.hdrs[c[i]].next == c[i + 1]
    requires Ascending(c) && k < i
    ensures BlockAt(h', RemoveAt(c, i + 1), k)
  {
    assert BlockAt(h, c, k) && BlockAt(h, c, i) && BlockAt(h, c, i + 1) && c[k] < c[i];
    hide Linked, Ascending;
  }

  lemma JoinAfter(h: HeapState, c: seq<nat>, i: nat, h': HeapState, k: nat)
    requires Linked(h, c) && i + 1 < |c| && Joins(h, c[i], h') && h.hdrs[c[i]].next == c[i + 1]
    requires Ascending(c) && i < k < |c| - 1
    ensures BlockAt(h', RemoveAt(c, i + 1), k)
  {
    hide Linked, Ascending;
    LinkedBlock(h, c, k + 1);
    LinkedBlock(h, c, i);
    LinkedBlock(h, c, i + 1);
    AscendingPair(c, i + 1, k + 1);
  }

  lemma LinkedBlock(h: HeapState, c: seq<nat>, i: nat)
    requires Linked(h, c) && i < |c|
    ensures BlockAt(h, c, i)
  {
  }

  lemma AscendingPair(c: seq<nat>, i: nat, j: nat)
    requires Ascending(c) && i < j < |c|
    ensures c[i] < c[j]
  {
  }

  lemma JoinBlock(h: HeapState, c: seq<nat>, i: nat, h': HeapState, k: nat)
    requires Linked(h, c) && i + 1 < |c| && Joins(h, c[i], h') && h.hdrs[c[i]].next == c[i + 1]
    requires Ascending(c)
    requires k < |c| - 1
    ensures BlockAt(h', RemoveAt(c, i + 1), k)
  {
    if k < i {
      JoinBefore(h, c, i, h', k);
    } else if k > i {
      JoinAfter(h, c, i, h', k);
    } else {
      assert BlockAt(h, c, i) && BlockAt(h, c, i + 1);
      hide Linked, Ascending;
    }
  }

  lemma JoinMembers(h: HeapState, c: seq<nat>, i: nat, h': HeapState)
    requires Linked(h, c) && i + 1 < |c| && Joins(h, c[i], h') && h.hdrs[c[i]].next == c[i + 1]
    requires Ascending(c)
    ensures forall x :: x in h'.hdrs <==> x in RemoveAt(c, i + 1)
  {
    RemoveMembers(c, i + 1);
  }

  lemma JoinTiles(h: HeapState, a: nat, h': HeapState)
    requires Tiled(h) && Joins(h, a, h')
    ensures Tiled(h')
  {
    var c := Chain(h);
    var i :| 0 <= i < |c| && c[i] == a;
    assert BlockAt(h, c, i);
    NextBlock(h, h.hdrs[a].next);
    ChainAscends(h, c);
    var c' := RemoveAt(c, i + 1);
    forall k: nat | k < |c'|
      ensures BlockAt(h', c', k)
    {
      JoinBlock(h, c, i, h', k);
    }
    JoinMembers(h, c, i, h');
    assert c'[0] == c[0];
    LinkedIsChain(h', c');
  }

  lemma AbsorbKeepsHeap(h: HeapState, a: nat)
    requires Tiled(h) && a in h.hdrs && !h.hdrs[a].Used()
    requires h.hdrs[a].next in h.hdrs && !h.hdrs[h.hdrs[a].next].Used()
    ensures var h' := Absorb(h, a);
      Tiled(h') && a in h'.hdrs && !h'.hdrs[a].Used() && LiveBlocks(h') == LiveBlocks(h)
  {
    AbsorbShape(h, a);
    JoinTiles(h, a, Absorb(h, a));
    JoinLive(h, a, Absorb(h, a));
  }

  lemma JoinLive(h: HeapState, a: nat, h': HeapState)
    requires Joins(h, a, h') && !h.hdrs[a].Used() && !h.hdrs[h.hdrs[a].next].Used()
    ensures LiveBlocks(h') == LiveBlocks(h)
  {
    var nx := h.hdrs[h.hdrs[a].next];
    forall x
      ensures x in LiveBlocks(h') <==> x in LiveBlocks(h)
      ensures x in LiveBlocks(h) ==> LiveBlocks(h')[x] == LiveBlocks(h)[x]
    {
      if x in h'.hdrs && x != a && x == nx.next {
        assert h'.hdrs[x].flags == h.hdrs[x].flags;
      }
    }
  }

  lemma {:induction false} MergeKeepsHeap(h: HeapState, a: nat)
    requires Tiled(h) && a in h.hdrs && !h.hdrs[a].Used()
    ensures var r := Merge(h, a);
      && r.Some? && Tiled(r.value) && LiveBlocks(r.value) == LiveBlocks(h)
      && r.value.base == h.base && r.value.size == h.size
    decreases |h.hdrs|
  {
    NextBlock(h, a);
    var next := h.hdrs[a].next;
    if next != 0 {
      NextBlock(h, next);
      if !h.hdrs[next].Used() {
        AbsorbKeepsHeap(h, a);
        MergeKeepsHeap(Absorb(h, a), a);
      }
    }
  }

  lemma {:induction false} BackFromFree(h: HeapState, a: nat)
    requires PrevBelow(h) && a in h.hdrs && !h.hdrs[a].Used()
    ensures BackFrom(h, a).Some? ==> !h.hdrs[BackFrom(h, a).value].Used()
  {
    var prev := h.hdrs[a].prev;
    if prev != 0 && prev in h.hdrs && !h.hdrs[prev].Used() {
      BackFromFree(h, prev);
    }
  }

  /**
    Every `free` that completes keeps the tiling, even with stale back links, and takes
    exactly the block it was given out of the live ones.
   */
  lemma FreeKeepsHeap(h: HeapState, p: Word)
    requires Tiled(h)
    ensures PrevBelow(h)
    ensures Free(h, p).Some? ==>
      var h' := Free(h, p).value;
      && p >= HEADER_SIZE && p - HEADER_SIZE in LiveBlocks(h)
      && Tiled(h') && h'.base == h.base && h'.size == h.size
      && LiveBlocks(h') == LiveBlocks(h) - {p - HEADER_SIZE}
  {
    TiledPrevBelow(h);
    var r := Free(h, p);
    if r.Some? {
      var a: nat := Wrap(p - HEADER_SIZE);
      NextBlock(h, a);
      var h1 := Release(h, a);
      ReleaseKeepsHeap(h, a);
      TiledPrevBelow(h1);
      BackFromFree(h1, a);
      MergeKeepsHeap(h1, BackFrom(h1, a).value);
    }
  }
}
