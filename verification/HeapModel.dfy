/**
  The kernel heap as a value: a region of memory and the block headers in it, keyed
  by address. A zeroed header is an address without an entry. Each function below is
  one operation of the allocator; `Tiled` is the invariant they are measured against.
 */
module HeapModel {
  import opened Words
  import opened Wrappers

  const HEADER_SIZE: nat := 32
  const MAGIC: Word := 0x1A110C00
  const HF_ALLOC: Word := 1

  /** The two values the flags of a header take: the magic, with or without `HF_ALLOC`. */
  const FREE: Word := MAGIC
  const USED: Word := MAGIC + 1
  type Flags = w: Word | w == FREE || w == USED witness FREE

  datatype Header = Header(flags: Flags, length: Word, prev: Word, next: Word) {
    predicate Used() {
      flags == USED
    }
  }

  datatype HeapState = HeapState(base: Word, size: Word, hdrs: map<nat, Header>)

  /** What the masks and tests on `flags` come to. */
  lemma FlagOperations(flags: Flags)
    ensures And(flags, MAGIC) == MAGIC
    ensures And(flags, HF_ALLOC) != 0 <==> flags == USED
    ensures Or(flags, HF_ALLOC) == USED == 0x1A11_0C01
    ensures And(flags, Not64(HF_ALLOC)) == FREE == 0x1A11_0C00
  {
    assert Pow2(1) == 2;
    Pow2Values();
    AndSelf(MAGIC);
    AndSelf(MAGIC / 2);
    assert flags / 2 == MAGIC / 2;
    MaskLow(flags, 1);
    OrDisjoint(FREE, 1, 1);
    assert Or(USED, 1) == 2 * Or(MAGIC / 2, 0) + 1;
    MaskHigh(flags, 64, 1);
  }

  // --- the chain and its invariant -------------------------------------------------

  /** Block `i` of the chain: its back link, and where its successor starts. */
  predicate BlockAt(h: HeapState, c: seq<nat>, i: nat)
    requires i < |c|
  {
    && c[i] in h.hdrs
    && var hd := h.hdrs[c[i]];
    && hd.prev < c[i]
    && if i + 1 < |c| then
         hd.next == c[i + 1] && c[i + 1] == c[i] + HEADER_SIZE + hd.length
       else
         hd.next == 0 && c[i] + HEADER_SIZE + hd.length == h.base + h.size
  }

  /** The blocks at the addresses `c`, in that order, tile the region and are all there are. */
  ghost predicate Linked(h: HeapState, c: seq<nat>)
  {
    && 0 < h.base && h.base + h.size < TWO_64
    && 0 < |c| && c[0] == h.base
    && (forall i: nat | i < |c| :: BlockAt(h, c, i))
    && (forall a :: a in h.hdrs <==> a in c)
  }

  /** The addresses met when following `next` from `a`. */
  function Walk(h: HeapState, a: nat): (c: seq<nat>)
    ensures forall x | x in c :: x in h.hdrs
    decreases h.base + h.size - a
  {
    if a !in h.hdrs || h.base + h.size <= a then []
    else if h.hdrs[a].next <= a then [a]
    else [a] + Walk(h, h.hdrs[a].next)
  }

  function Chain(h: HeapState): seq<nat>
  {
    Walk(h, h.base)
  }

  /**
    The heap invariant: following `next` from the base visits every header, and the
    blocks and their headers cover [base, base + size) without gap or overlap.
   */
  ghost predicate Tiled(h: HeapState)
  {
    Linked(h, Chain(h))
  }

  function LiveBlocks(h: HeapState): map<nat, nat>
  {
    map a | a in h.hdrs && h.hdrs[a].Used() :: h.hdrs[a].length
  }

  lemma {:induction false} WalkIsSuffix(h: HeapState, c: seq<nat>, i: nat)
    requires Linked(h, c) && i < |c|
    ensures Walk(h, c[i]) == c[i..]
    decreases |c| - i
  {
    assert BlockAt(h, c, i);
    if i + 1 < |c| {
      WalkIsSuffix(h, c, i + 1);
      InRegion(h, c, i);
    } else {
      InRegion(h, c, i);
    }
  }

  /** A block ends at or before the end of the region. */
  lemma {:induction false} InRegion(h: HeapState, c: seq<nat>, i: nat)
    requires Linked(h, c) && i < |c|
    ensures h.base <= c[i] && c[i] + HEADER_SIZE + h.hdrs[c[i]].length <= h.base + h.size
    decreases |c| - i
  {
    assert BlockAt(h, c, i);
    if i + 1 < |c| {
      InRegion(h, c, i + 1);
    }
    BaseFirst(h, c, i);
  }

  lemma {:induction false} BaseFirst(h: HeapState, c: seq<nat>, i: nat)
    requires Linked(h, c) && i < |c|
    ensures h.base <= c[i]
  {
    if i > 0 {
      assert BlockAt(h, c, i - 1);
      BaseFirst(h, c, i - 1);
    }
  }

  /** The chain is determined by the headers, so one listing of it is the listing. */
  lemma LinkedIsChain(h: HeapState, c: seq<nat>)
    requires Linked(h, c)
    ensures Chain(h) == c && Tiled(h)
  {
    WalkIsSuffix(h, c, 0);
  }

  lemma {:induction false} SpacedFrom(h: HeapState, c: seq<nat>, i: nat, j: nat)
    requires Linked(h, c) && i < j < |c|
    ensures c[i] + HEADER_SIZE + h.hdrs[c[i]].length <= c[j]
  {
    assert BlockAt(h, c, i);
    assert BlockAt(h, c, j - 1);
    if i + 1 < j {
      SpacedFrom(h, c, i, j - 1);
    }
  }

  /** Distinct blocks, headers included, do not overlap, and the chain is in address order. */
  lemma Spaced(h: HeapState, c: seq<nat>)
    requires Linked(h, c)
    ensures forall i: nat, j: nat | i < j < |c| :: c[i] in h.hdrs && c[i] + HEADER_SIZE + h.hdrs[c[i]].length <= c[j]
  {
    forall i: nat, j: nat | i < j < |c|
      ensures c[i] in h.hdrs && c[i] + HEADER_SIZE + h.hdrs[c[i]].length <= c[j]
    {
      SpacedFrom(h, c, i, j);
    }
  }

  ghost predicate Ascending(c: seq<nat>)
  {
    forall i: nat, j: nat | i < j < |c| :: c[i] < c[j]
  }

  lemma ChainAscends(h: HeapState, c: seq<nat>)
    requires Linked(h, c)
    ensures Ascending(c)
  {
    Spaced(h, c);
  }

  /** The block after `a` in a tiled heap. */
  lemma NextBlock(h: HeapState, a: nat)
    requires Tiled(h) && a in h.hdrs
    ensures
      var hd := h.hdrs[a];
      && hd.prev < a
      && h.base <= a && a + HEADER_SIZE + hd.length <= h.base + h.size
      && (hd.next == 0 <==> a + HEADER_SIZE + hd.length == h.base + h.size)
      && (hd.next != 0 ==> hd.next in h.hdrs && hd.next == a + HEADER_SIZE + hd.length)
  {
    var c := Chain(h);
    var i :| 0 <= i < |c| && c[i] == a;
    assert BlockAt(h, c, i);
    InRegion(h, c, i);
    if i + 1 < |c| {
      assert BlockAt(h, c, i + 1);
      InRegion(h, c, i + 1);
    }
  }

  /** Two blocks of a tiled heap do not overlap. */
  lemma Disjoint(h: HeapState, a: nat, b: nat)
    requires Tiled(h) && a in h.hdrs && b in h.hdrs && a < b
    ensures a + HEADER_SIZE + h.hdrs[a].length <= b
  {
    var c := Chain(h);
    var i :| 0 <= i < |c| && c[i] == a;
    var j :| 0 <= j < |c| && c[j] == b;
    Spaced(h, c);
  }

  // --- reset -------------------------------------------------------------------------

  function ResetState(base: Word, size: Word): HeapState
  {
    HeapState(base, size, map[base as nat := Header(FREE, Wrap(size - HEADER_SIZE), 0, 0)])
  }

  lemma ResetTiles(base: Word, size: Word)
    requires 0 < base && HEADER_SIZE <= size && base + size < TWO_64
    ensures Tiled(ResetState(base, size)) && LiveBlocks(ResetState(base, size)) == map[]
  {
    var h := ResetState(base, size);
    assert BlockAt(h, [base as nat], 0);
    LinkedIsChain(h, [base as nat]);
  }

  lemma OneBlock(base: Word, size: Word)
    requires 0 < base && HEADER_SIZE <= size && base + size < TWO_64
    ensures var h := ResetState(base, size);
      Tiled(h) && (forall a :: a in h.hdrs <==> a == base) && !h.hdrs[base].Used() && h.hdrs[base].length == size - HEADER_SIZE
  {
    ResetTiles(base, size);
  }

  /** On bounds that no heap can have the first header does not describe the region. Nothing is live on any. */
  lemma ResetTilesIff(base: Word, size: Word)
    ensures LiveBlocks(ResetState(base, size)) == map[]
    ensures Tiled(ResetState(base, size)) <==> 0 < base && HEADER_SIZE <= size && base + size < TWO_64
  {
    var h := ResetState(base, size);
    if 0 < base && HEADER_SIZE <= size && base + size < TWO_64 {
      ResetTiles(base, size);
    } else if Tiled(h) {
      BaseIsBlock(h);
      NextBlock(h, base);
    }
  }

  lemma BaseIsBlock(h: HeapState)
    requires Tiled(h)
    ensures h.base in h.hdrs && 0 < h.base && h.base + h.size < TWO_64
  {
    assert BlockAt(h, Chain(h), 0);
  }

  // --- alloc -------------------------------------------------------------------------

  /** The test `alloc` makes on a block, in 64-bit arithmetic. */
  predicate Accepts(hd: Header, size: Word)
  {
    !hd.Used() && (hd.length > Wrap(size + HEADER_SIZE) || hd.length == size)
  }

  function FirstFit(h: HeapState, c: seq<nat>, size: Word): (r: Option<nat>)
    requires forall a | a in c :: a in h.hdrs
    ensures r.Some? ==> r.value in c && Accepts(h.hdrs[r.value], size)
    ensures r.None? ==> forall a | a in c :: !Accepts(h.hdrs[a], size)
  {
    if c == [] then None
    else if Accepts(h.hdrs[c[0]], size) then Some(c[0])
    else FirstFit(h, c[1..], size)
  }

  /** Cuts the block at `a` after `size` bytes and puts a free block behind the cut. */
  function Split(h: HeapState, a: nat, size: Word): HeapState
    requires a in h.hdrs
  {
    var m1 := h.hdrs[a := h.hdrs[a].(flags := USED)];
    var hd := m1[a];
    var n: nat := Wrap(a + HEADER_SIZE + size);
    var m2 := m1[n := Header(FREE, Wrap(hd.length - size - HEADER_SIZE), Wrap(a), hd.next)];
    h.(hdrs := m2[a := m2[a].(next := n, length := size)])
  }

  function Take(h: HeapState, a: nat): HeapState
    requires a in h.hdrs
  {
    h.(hdrs := h.hdrs[a := h.hdrs[a].(flags := USED)])
  }

  function Place(h: HeapState, a: nat, size: Word): HeapState
    requires a in h.hdrs
  {
    if h.hdrs[a].length > Wrap(size + HEADER_SIZE) then Split(h, a, size) else Take(h, a)
  }

  function Alloc(h: HeapState, size: Word): (HeapState, Option<nat>)
  {
    var r := FirstFit(h, Chain(h), size);
    if r.None? then (h, None) else (Place(h, r.value, size), Some(r.value + HEADER_SIZE))
  }

  // --- free --------------------------------------------------------------------------

  /** Back links lead to lower addresses, so following them ends. */
  ghost predicate PrevBelow(h: HeapState)
  {
    forall a | a in h.hdrs :: h.hdrs[a].prev < a
  }

  /**
    The first loop of `free`: the block where coalescing starts. None when a back link
    leads to memory that holds no header, where the assertion on the magic halts.
   */
  function BackFrom(h: HeapState, a: nat): (r: Option<nat>)
    requires PrevBelow(h) && a in h.hdrs
    ensures r.Some? ==> r.value in h.hdrs
  {
    var prev := h.hdrs[a].prev;
    if prev == 0 then Some(a)
    else if prev !in h.hdrs then None
    else if h.hdrs[prev].Used() then Some(a)
    else BackFrom(h, prev)
  }

  /** One round of the second loop: the block after `a` becomes part of `a`. */
  function Absorb(h: HeapState, a: nat): (r: HeapState)
    requires a in h.hdrs && h.hdrs[a].next in h.hdrs
    ensures |r.hdrs| < |h.hdrs|
  {
    var n := h.hdrs[a].next;
    var next := h.hdrs[n].next;
    var m1 := h.hdrs[a := h.hdrs[a].(length := Wrap(h.hdrs[a].length + HEADER_SIZE + h.hdrs[n].length), next := next)];
    var m2 := if next != 0 && next in m1 then m1[next := m1[next].(prev := Wrap(a))] else m1;
    assert m2.Keys == h.hdrs.Keys && (m2 - {n as nat}).Keys == h.hdrs.Keys - {n as nat};
    assert |(m2 - {n as nat}).Keys| < |h.hdrs.Keys|;
    h.(hdrs := m2 - {n as nat})
  }

  /** The second loop of `free`. None when a `next` link leads to memory without a header. */
  function Merge(h: HeapState, a: nat): Option<HeapState>
    requires a in h.hdrs
    decreases |h.hdrs|
  {
    var next := h.hdrs[a].next;
    if next == 0 then Some(h)
    else if next !in h.hdrs then None
    else if h.hdrs[next].Used() then Some(h)
    else
      var h' := Absorb(h, a);
      if a in h'.hdrs then Merge(h', a) else Some(h')
  }

  function Release(h: HeapState, a: nat): HeapState
    requires a in h.hdrs
  {
    h.(hdrs := h.hdrs[a := h.hdrs[a].(flags := FREE)])
  }

  /** `free`: None where an assertion fails or the double-free panic is reached. */
  function Free(h: HeapState, p: Word): Option<HeapState>
    requires PrevBelow(h)
  {
    var a: nat := Wrap(p - HEADER_SIZE);
    if a !in h.hdrs || !h.hdrs[a].Used() then None
    else
      var h1 := Release(h, a);
      var start := BackFrom(h1, a);
      if start.None? then None else Merge(h1, start.value)
  }

  /** `freeChecked`: also asserts that the caller knows the block's length. */
  function FreeChecked(h: HeapState, p: Word, sz: Word): Option<HeapState>
    requires PrevBelow(h)
  {
    var a: nat := Wrap(p - HEADER_SIZE);
    if a !in h.hdrs || h.hdrs[a].length != sz then None else Free(h, p)
  }

  lemma TiledPrevBelow(h: HeapState)
    requires Tiled(h)
    ensures PrevBelow(h)
  {
    forall a | a in h.hdrs
      ensures h.hdrs[a].prev < a
    {
      NextBlock(h, a);
    }
  }
}
