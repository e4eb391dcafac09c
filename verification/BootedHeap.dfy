/** The whole chain: loader, handover, `mm::init` and `heap::init`, and what the heap's bytes share with the loader's pages. */
module BootedHeap {
  import opened Wrappers
  import opened PageModel
  import opened PageInvariant
  import opened PageTranslation
  import opened PageProgress
  import opened RangeFrames
  import opened MemoryRuns
  import opened MemoryOrder
  import opened PagesInOrder
  import opened HeapInit
  import opened Boot

  // --- when heap::init completes ------------------------------------------------------------------

  lemma InitIsGrant(m: Manager, root: nat, mask: Phys.Mask)
    requires Placed(m, root)
    ensures (exists m', g :: Init(m, root, mask, m', g)) <==> MM.Alloc(m.s, root, m.words, mask, HEAP_PAGES, AF_RW).Granted?
  {
    hide Placed, MM.Alloc;
    assert Inv(m.s, root) && |m.words| == Phys.WORDS by { PlacedFacts(m, root); }
    var r := MM.Alloc(m.s, root, m.words, mask, HEAP_PAGES, AF_RW);
    if r.Granted? {
      var m' := Manager(r.s, r.words, MM.Add(m.owned, r.first, r.pages));
      assert Init(m, root, mask, m', r.first);
    }
  }

  lemma PlacedFacts(m: Manager, root: nat)
    requires Placed(m, root)
    ensures Inv(m.s, root) && |m.words| == Phys.WORDS
  {
    hide Inv, Translation;
  }

  /**
    `heap::init` of a booted kernel completes if and only if the loader has left sixteen pages of the virtual range free in a
    row, and enough frames are free for the tables these are missing; four always are.
   */
  lemma InitCompletesIff(s0: Paging, built: seq<Paging>, root: nat, rs: seq<Request>, mask: Phys.Mask)
    requires LoaderBuilds(s0, built, root, rs) && Phys.OneBitMask(mask)
    ensures var m, range := Started(built[|rs|]), MM.FindRange(Extend(map[], rs), HEAP_PAGES);
      && ((exists m', g :: Init(m, root, mask, m', g)) <==>
            range.Some? && |FreeFrames(m.s)| >= RangeMissing(m.s.mem, root, range.value, HEAP_PAGES))
      && (range.Some? ==> RangeMissing(m.s.mem, root, range.value, HEAP_PAGES) <= 4)
  {
    var m := Started(built[|rs|]);
    KernelStarts(s0, built, root, rs, mask);
    hide LoaderBuilds, Started, Extend, Translation, Inv, Phys.OneBitMask, FreeFrames, RangeMissing, MM.FindRange, Init, Phys.AllocPages, UpTo;
    InitIsGrant(m, root, mask);
    PlacedFacts(m, root);
    OrderedWords(m, mask);
    AllocInOrder(m.words, mask, Phys.FIRST_PAGE, HEAP_PAGES);
    MM.AllocPanicsIff(m.s, root, m.words, mask, HEAP_PAGES, AF_RW);
    var range := MM.FindRange(Extend(map[], rs), HEAP_PAGES);
    if range.Some? {
      AtMostFour(m.s.mem, root, range.value, HEAP_PAGES);
    }
  }

  lemma OrderedWords(m: Manager, mask: Phys.Mask)
    requires Ordered(m, mask, Phys.FIRST_PAGE)
    ensures UpTo(m.words, mask, Phys.FIRST_PAGE)
  {
    hide UpTo, OwnsUpTo;
  }

  // --- the heap and the loader's pages ----------------------------------------------------------------

  /** A page of the region at `g` and one the loader mapped translate to the same physical page. */
  ghost predicate RegionMeets(t: map<nat, nat>, g: nat, loaded: map<nat, nat>)
  {
    exists x: nat, h :: g <= x < g + HEAP_PAGES && h in loaded && x in t && h in t && t[x] == t[h]
  }

  lemma OwnsRegion(g: nat, pages: seq<nat>, x: nat)
    requires |pages| == HEAP_PAGES
    ensures x in MM.Add(map[], g, pages) <==> g <= x < g + HEAP_PAGES
  {
    MM.AddAt(map[], g, pages, x);
  }

  lemma RegionIsOwned(t: map<nat, nat>, g: nat, pages: seq<nat>, loaded: map<nat, nat>)
    requires |pages| == HEAP_PAGES
    ensures RegionMeets(t, g, loaded) <==> Meets(t, MM.Add(map[], g, pages), loaded)
  {
    var owned := MM.Add(map[], g, pages);
    if x: nat, h :| g <= x < g + HEAP_PAGES && h in loaded && x in t && h in t && t[x] == t[h] {
      OwnsRegion(g, pages, x);
    }
    if x, h :| x in owned && h in loaded && x in t && h in t && t[x] == t[h] {
      OwnsRegion(g, pages, x);
    }
  }

  lemma InitGrants(m: Manager, root: nat, mask: Phys.Mask, m': Manager, g: nat) returns (pages: seq<nat>)
    requires Init(m, root, mask, m', g) && m.owned == map[]
    ensures Inv(m.s, root) && |m.words| == Phys.WORDS && Calls(m, root, mask, Call(HEAP_PAGES, AF_RW), m')
    ensures MM.Alloc(m.s, root, m.words, mask, HEAP_PAGES, AF_RW).Granted?
    ensures |pages| == HEAP_PAGES && m'.owned == MM.Add(map[], g, pages)
  {
    hide Inv, Translation, MM.Alloc;
    var r := MM.Alloc(m.s, root, m.words, mask, HEAP_PAGES, AF_RW);
    MM.AllocMapsRange(m.s, root, m.words, mask, HEAP_PAGES, AF_RW);
    pages := r.pages;
  }

  /** The heap of a booted kernel lies on a page the loader mapped if and only if the loader mapped one from 6 MiB to 38 MiB. */
  lemma HeapMeetsLoaderIff(s0: Paging, built: seq<Paging>, root: nat, rs: seq<Request>, mask: Phys.Mask, m': Manager, g: nat)
    requires LoaderBuilds(s0, built, root, rs) && Phys.OneBitMask(mask) && Init(Started(built[|rs|]), root, mask, m', g)
    ensures RegionMeets(Translation(m'.s.mem, root), g, Extend(map[], rs)) <==>
              exists h :: h in Extend(map[], rs) && 0x60_0000 <= Extend(map[], rs)[h] < 0x260_0000
  {
    NothingOwned(built[|rs|]);
    hide LoaderBuilds, Started, Extend, Translation, Inv, Phys.OneBitMask, Init, Calls, Meets, RegionMeets, MM.Alloc;
    var pages := InitGrants(Started(built[|rs|]), root, mask, m', g);
    FirstCallMeetsLoaderIff(s0, built, root, rs, mask, HEAP_PAGES, AF_RW, m');
    RegionIsOwned(Translation(m'.s.mem, root), g, pages, Extend(map[], rs));
    LoadedInMiB(Extend(map[], rs));
  }

  lemma NothingOwned(s: Paging)
    ensures Started(s).owned == map[]
  {
  }

  lemma LoadedInMiB(loaded: map<nat, nat>)
    ensures LoadedBelow(loaded, Phys.FIRST_PAGE + HEAP_PAGES) <==>
              exists h :: h in loaded && 0x60_0000 <= loaded[h] < 0x260_0000
  {
    if h :| h in loaded && 0x60_0000 <= loaded[h] < 0x260_0000 {
      assert Phys.FIRST_PAGE * PAGE <= loaded[h] < (Phys.FIRST_PAGE + HEAP_PAGES) * PAGE;
    }
    if LoadedBelow(loaded, Phys.FIRST_PAGE + HEAP_PAGES) {
      var h :| h in loaded && Phys.FIRST_PAGE * PAGE <= loaded[h] < (Phys.FIRST_PAGE + HEAP_PAGES) * PAGE;
    }
  }

  lemma ByteApart(t: map<nat, nat>, t': map<nat, nat>, g: nat, loaded: map<nat, nat>, b: nat, v: nat)
    requires !RegionMeets(t, g, loaded) && g < MM.LAST && PagesApart(t, g) && Mapped(t', t) && Mapped(t, loaded) && InRegion(g, b)
    requires v / PAGE in loaded && (forall h | h in loaded :: loaded[h] % PAGE == 0)
    ensures LookUp(t', b) != LookUp(t', v)
  {
    RegionPages(g, b);
    var x, h := b / PAGE, v / PAGE;
    assert x in t && h in t && t[x] != t[h];
    if t[x] + b % PAGE == t[h] + v % PAGE {
      AlignedSum(t[x], b % PAGE, t[h], v % PAGE);
    }
  }

  /**
    From the loader on, over every run of the heap and of `mm::alloc`, failing calls included: every byte of every live
    block is mapped, where `init` mapped it, and two such bytes have different bytes of memory. If the loader mapped nothing
    from 6 MiB to 38 MiB, no byte of a live block is one of the loader's either, and these stay where the loader put them.
   */
  lemma BootedHeapBytes(s0: Paging, built: seq<Paging>, root: nat, rs: seq<Request>,
                        trace: seq<Manager>, mask: Phys.Mask, calls: seq<Call>, j: nat, g: nat,
                        heaps: seq<HeapModel.HeapState>, ops: seq<Heaps.Op>, k: nat, l: nat, a: nat, b: nat, a': nat, b': nat, v: nat)
    requires LoaderBuilds(s0, built, root, rs) && Phys.OneBitMask(mask)
    requires Run(trace, root, mask, calls) && j < |trace| && Init(Started(built[|rs|]), root, mask, trace[0], g)
    requires 0 < g < MM.LAST && Heaps.Run(heaps, ops) && heaps[0] == HeapModel.ResetState(g * 0x20_0000, 0x200_0000) && k < |heaps| && l < |heaps|
    requires BlockByte(heaps[k], a, b) && BlockByte(heaps[l], a', b') && b != b'
    requires v < VIRTUAL_END && LookUp(Extend(map[], rs), v).Some?
    ensures Get(trace[j].s.mem, root, b).Some? && Get(trace[j].s.mem, root, b) == Get(trace[0].s.mem, root, b)
    ensures Get(trace[j].s.mem, root, b) != Get(trace[j].s.mem, root, b')
    ensures Get(trace[j].s.mem, root, v) == LookUp(Extend(map[], rs), v)
    ensures (forall h | h in Extend(map[], rs) :: !(0x60_0000 <= Extend(map[], rs)[h] < 0x260_0000)) ==>
              Get(trace[j].s.mem, root, b) != Get(trace[j].s.mem, root, v)
  {
    var m := Started(built[|rs|]);
    hide LoaderBuilds, Started, Extend, Translation, Inv, Phys.OneBitMask, Init, Run, BlockByte, Get, LookUp, PagesApart,
         RegionMeets, Placed, Mapped, InRegion, Heaps.Run, HeapModel.ResetState;
    HeapBytesMappedApart(m, trace, root, mask, calls, j, g, heaps, ops, k, l, a, b, a', b');
    LoaderStays(s0, built, root, rs, trace, mask, calls, j, g);
    StillMapped(trace[j].s.mem, root, Extend(map[], rs), v);
    if forall h | h in Extend(map[], rs) :: !(0x60_0000 <= Extend(map[], rs)[h] < 0x260_0000) {
      HeapMeetsLoaderIff(s0, built, root, rs, mask, trace[0], g);
      BlocksInRegion(heaps, ops, k, g, a, b);
      BytesOfTheirOwn(trace[0], trace[j], root, g, rs, b, v);
    }
  }

  /** What the loader mapped is mapped throughout, and the heap region with it. */
  lemma LoaderStays(s0: Paging, built: seq<Paging>, root: nat, rs: seq<Request>,
                    trace: seq<Manager>, mask: Phys.Mask, calls: seq<Call>, j: nat, g: nat)
    requires LoaderBuilds(s0, built, root, rs) && Run(trace, root, mask, calls) && j < |trace|
    requires Init(Started(built[|rs|]), root, mask, trace[0], g)
    ensures g < MM.LAST && PagesApart(Translation(trace[0].s.mem, root), g)
    ensures var t, t' := Translation(trace[0].s.mem, root), Translation(trace[j].s.mem, root);
      Mapped(t, Extend(map[], rs)) && Mapped(t', t) && Mapped(t', Extend(map[], rs))
  {
    var m := Started(built[|rs|]);
    InitIsCall(m, root, mask, trace[0], g);
    hide LoaderBuilds, Started, Extend, Translation, Inv, Init, Run, PagesApart, Mapped, Placed, Calls;
    KernelStarts(s0, built, root, rs, mask);
    CallKeepsMappings(m, root, mask, Call(HEAP_PAGES, AF_RW), trace[0]);
    InitApart(m, root, mask, trace[0], g);
    RunKeepsMappings(trace, root, mask, calls, j);
    MappedTransitive(Extend(map[], rs), Translation(trace[0].s.mem, root), Translation(trace[j].s.mem, root));
  }

  lemma InitIsCall(m: Manager, root: nat, mask: Phys.Mask, m': Manager, g: nat)
    requires Init(m, root, mask, m', g)
    ensures Calls(m, root, mask, Call(HEAP_PAGES, AF_RW), m')
  {
    hide Placed, Calls;
  }

  lemma BytesOfTheirOwn(m: Manager, m': Manager, root: nat, g: nat, rs: seq<Request>, b: nat, v: nat)
    requires g < MM.LAST && PagesApart(Translation(m.s.mem, root), g) && InRegion(g, b) && v < VIRTUAL_END
    requires !RegionMeets(Translation(m.s.mem, root), g, Extend(map[], rs)) && LookUp(Extend(map[], rs), v).Some?
    requires Mapped(Translation(m.s.mem, root), Extend(map[], rs)) && Mapped(Translation(m'.s.mem, root), Translation(m.s.mem, root))
    ensures Get(m'.s.mem, root, b) != Get(m'.s.mem, root, v)
  {
    forall h | h in Extend(map[], rs)
      ensures Extend(map[], rs)[h] % PAGE == 0
    {
      ExtendAligned(rs, h);
    }
    RegionPages(g, b);
    GetIsTranslation(m'.s.mem, root, b);
    GetIsTranslation(m'.s.mem, root, v);
    hide Extend, Translation, RegionMeets, PagesApart, Mapped, InRegion;
    ByteApart(Translation(m.s.mem, root), Translation(m'.s.mem, root), g, Extend(map[], rs), b, v);
  }

  // --- a boot in which they meet ------------------------------------------------------------------------

  lemma SixteenFree()
    ensures MM.FindRange(map[2 := 0x60_0000], HEAP_PAGES) == Some(MM.FIRST)
  {
    assert MM.RangeFree(map[2 := 0x60_0000], MM.FIRST, HEAP_PAGES);
  }

  /** With the kernel at 6 MiB, as the loader may place it, `heap::init` completes and puts the heap on the kernel's page. */
  lemma HeapCanMeetKernel(mask: Phys.Mask)
    requires Phys.OneBitMask(mask)
    ensures exists built, m', g ::
      && LoaderBuilds(Region(), built, ROOT, [KERNEL_PAGE]) && Init(Started(built[1]), ROOT, mask, m', g)
      && RegionMeets(Translation(m'.s.mem, ROOT), g, Extend(map[], [KERNEL_PAGE]))
  {
    var built := OneRequest();
    OneExtended();
    SixteenFree();
    BootedRoomy(built, mask);
    RoomyFrames(Started(built[1]).s);
    hide LoaderBuilds, Started, Extend, Translation, Phys.OneBitMask, Init, FreeFrames, RangeMissing, RegionMeets, MM.FindRange, Region;
    InitCompletesIff(Region(), built, ROOT, [KERNEL_PAGE], mask);
    var m', g :| Init(Started(built[1]), ROOT, mask, m', g);
    HeapMeetsLoaderIff(Region(), built, ROOT, [KERNEL_PAGE], mask, m', g);
    assert 2 in Extend(map[], [KERNEL_PAGE]);
  }

  lemma RoomyFrames(s: Paging)
    requires Shared.Roomy(s, ROOT)
    ensures 67 <= |FreeFrames(s)|
  {
    hide Inv, FreeFrames, Translation;
  }
}
