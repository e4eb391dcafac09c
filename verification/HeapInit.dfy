/** `heap::init`: the kernel heap over pages from `mm::alloc`, and what its bytes are backed by. */
module HeapInit {
  import opened Words
  import opened PageModel
  import opened PageTranslation
  import MM = MemoryModel
  import opened MemoryRuns
  import opened HeapModel
  import Heaps = HeapRuns

  const AF_RW: Word := 1
  const HEAP_PAGES: nat := 16
  const HEAP_SIZE: Word := 0x200_0000

  /** The lowest physical address `mm` hands out. */
  const MANAGED: nat := 0x60_0000

  /** `heap::init` in state `m`: the heap region starts at page `g`. */
  ghost predicate Init(m: Manager, root: nat, mask: Phys.Mask, m': Manager, g: nat)
  {
    && Placed(m, root) && Calls(m, root, mask, Call(HEAP_PAGES, AF_RW), m')
    && var r := MM.Alloc(m.s, root, m.words, mask, HEAP_PAGES, AF_RW);
    && r.Granted? && r.first == g
  }

  predicate InRegion(g: nat, b: nat)
  {
    g * PAGE <= b < g * PAGE + HEAP_SIZE
  }

  /** The pages of the region are mapped to distinct physical pages, none below 6 MiB. */
  ghost predicate PagesApart(t: map<nat, nat>, g: nat)
  {
    && (forall h: nat | g <= h < g + HEAP_PAGES :: h in t && t[h] % PAGE == 0 && MANAGED <= t[h])
    && (forall h: nat, k: nat | g <= h < k < g + HEAP_PAGES :: t[h] != t[k])
  }

  lemma PageAddress(p: nat)
    requires Phys.FIRST_PAGE <= p
    ensures p * PAGE % PAGE == 0 && MANAGED <= p * PAGE
  {
  }

  lemma GrantedApart(t: map<nat, nat>, g: nat, pages: seq<nat>)
    requires |pages| == HEAP_PAGES && Phys.StrictlyIncreasing(pages) && Phys.InLimits(pages, Phys.FIRST_PAGE)
    ensures PagesApart(MM.Add(t, g, pages), g)
  {
    var t' := MM.Add(t, g, pages);
    forall h: nat | g <= h < g + HEAP_PAGES
      ensures h in t' && t'[h] == pages[h - g] * PAGE && t'[h] % PAGE == 0 && MANAGED <= t'[h]
    {
      MM.AddAt(t, g, pages, h);
      PageAddress(pages[h - g]);
    }
    forall h: nat, k: nat | g <= h < k < g + HEAP_PAGES
      ensures t'[h] != t'[k]
    {
      assert pages[h - g] < pages[k - g];
    }
  }

  lemma InitApart(m: Manager, root: nat, mask: Phys.Mask, m': Manager, g: nat)
    requires Init(m, root, mask, m', g)
    ensures 0 < g < MM.LAST && Placed(m', root) && PagesApart(Translation(m'.s.mem, root), g)
  {
    MM.AllocMapsRange(m.s, root, m.words, mask, HEAP_PAGES, AF_RW);
    CallKeepsMappings(m, root, mask, Call(HEAP_PAGES, AF_RW), m');
    Phys.CollectIncreases(m.words, mask, Phys.FIRST_PAGE, HEAP_PAGES);
    GrantedApart(Translation(m.s.mem, root), g, MM.Alloc(m.s, root, m.words, mask, HEAP_PAGES, AF_RW).pages);
  }

  lemma StillApart(t: map<nat, nat>, t': map<nat, nat>, g: nat)
    requires PagesApart(t, g) && Mapped(t', t)
    ensures PagesApart(t', g) && forall h: nat | g <= h < g + HEAP_PAGES :: h in t && h in t' && t'[h] == t[h]
  {
  }

  /** After `init` and any further calls of `mm::alloc`, failing ones included, the region is mapped as it was, and apart. */
  lemma RegionStaysApart(m: Manager, trace: seq<Manager>, root: nat, mask: Phys.Mask, calls: seq<Call>, j: nat, g: nat)
    requires Run(trace, root, mask, calls) && j < |trace| && Init(m, root, mask, trace[0], g)
    ensures 0 < g < MM.LAST
    ensures var t, t' := Translation(trace[0].s.mem, root), Translation(trace[j].s.mem, root);
      PagesApart(t', g) && forall h: nat | g <= h < g + HEAP_PAGES :: h in t && h in t' && t'[h] == t[h]
  {
    hide Run, Init, Translation, Placed, PagesApart, Mapped;
    InitApart(m, root, mask, trace[0], g);
    RunKeepsMappings(trace, root, mask, calls, j);
    StillApart(Translation(trace[0].s.mem, root), Translation(trace[j].s.mem, root), g);
  }

  lemma RegionPages(g: nat, b: nat)
    requires g < MM.LAST && InRegion(g, b)
    ensures b < VIRTUAL_END && g <= b / PAGE < g + HEAP_PAGES
  {
  }

  lemma AlignedSum(p: nat, x: nat, q: nat, y: nat)
    requires p % PAGE == 0 && q % PAGE == 0 && x < PAGE && y < PAGE && p + x == q + y
    ensures p == q && x == y
  {
  }

  lemma LookUpApart(t: map<nat, nat>, t': map<nat, nat>, g: nat, b: nat, c: nat)
    requires g < MM.LAST && PagesApart(t', g) && InRegion(g, b) && InRegion(g, c) && b != c
    requires forall h: nat | g <= h < g + HEAP_PAGES :: h in t && h in t' && t'[h] == t[h]
    ensures LookUp(t', b).Some? && LookUp(t', b).value >= MANAGED
    ensures LookUp(t', b) == LookUp(t, b) && LookUp(t', b) != LookUp(t', c)
  {
    RegionPages(g, b);
    RegionPages(g, c);
    if LookUp(t', b) == LookUp(t', c) {
      AlignedSum(t'[b / PAGE], b % PAGE, t'[c / PAGE], c % PAGE);
    }
  }

  lemma BytesApart(m: Memory, m': Memory, root: nat, g: nat, b: nat, c: nat)
    requires g < MM.LAST && PagesApart(Translation(m', root), g) && InRegion(g, b) && InRegion(g, c) && b != c
    requires var t, t' := Translation(m, root), Translation(m', root);
      forall h: nat | g <= h < g + HEAP_PAGES :: h in t && h in t' && t'[h] == t[h]
    ensures Get(m', root, b).Some? && Get(m', root, b).value >= MANAGED
    ensures Get(m', root, b) == Get(m, root, b) && Get(m', root, b) != Get(m', root, c)
  {
    RegionPages(g, b);
    RegionPages(g, c);
    LookUpApart(Translation(m, root), Translation(m', root), g, b, c);
    GetIsTranslation(m, root, b);
    GetIsTranslation(m', root, b);
    GetIsTranslation(m', root, c);
  }

  /** A byte of the payload of the block with header `a`. */
  predicate BlockByte(h: HeapState, a: nat, b: nat)
  {
    a in LiveBlocks(h) && a + HEADER_SIZE <= b < a + HEADER_SIZE + LiveBlocks(h)[a]
  }

  lemma BlocksInRegion(heaps: seq<HeapState>, ops: seq<Heaps.Op>, k: nat, g: nat, a: nat, b: nat)
    requires 0 < g < MM.LAST && Heaps.Run(heaps, ops) && heaps[0] == ResetState(g * 0x20_0000, 0x200_0000) && k < |heaps|
    requires BlockByte(heaps[k], a, b)
    ensures InRegion(g, b)
  {
    Heaps.RunFromReset(g * PAGE, HEAP_SIZE, heaps, ops, k);
    NextBlock(heaps[k], a);
  }

  /**
    After `heap::init`, over every run of the heap and every run of `mm::alloc`, failing calls included: every byte of every
    live block is mapped, where it was mapped by `init`, and two bytes of live blocks (of the same or of different
    blocks, or states of the heap) are never backed by the same byte of memory, nor by one below 6 MiB.
   */
  lemma HeapBytesMappedApart(m: Manager, trace: seq<Manager>, root: nat, mask: Phys.Mask, calls: seq<Call>, j: nat, g: nat,
                             heaps: seq<HeapState>, ops: seq<Heaps.Op>, k: nat, l: nat, a: nat, b: nat, a': nat, b': nat)
    requires Run(trace, root, mask, calls) && j < |trace| && Init(m, root, mask, trace[0], g)
    requires 0 < g < MM.LAST && Heaps.Run(heaps, ops) && heaps[0] == ResetState(g * 0x20_0000, 0x200_0000) && k < |heaps| && l < |heaps|
    requires BlockByte(heaps[k], a, b) && BlockByte(heaps[l], a', b') && b != b'
    ensures Get(trace[j].s.mem, root, b).Some? && Get(trace[j].s.mem, root, b) == Get(trace[0].s.mem, root, b)
    ensures Get(trace[j].s.mem, root, b).value >= 0x60_0000
    ensures Get(trace[j].s.mem, root, b) != Get(trace[j].s.mem, root, b')
  {
    hide Run, Init, Translation, PagesApart, Get, BlockByte, InRegion;
    BlocksInRegion(heaps, ops, k, g, a, b);
    BlocksInRegion(heaps, ops, l, g, a', b');
    RegionStaysApart(m, trace, root, mask, calls, j, g);
    BytesApart(trace[0].s.mem, trace[j].s.mem, root, g, b, b');
  }
}
