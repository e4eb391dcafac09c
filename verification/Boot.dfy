/**
  From the loader to the running kernel: the tables the loader builds, handed over, are where
  `mm::alloc` starts, and everything that holds over its runs holds of the booted system.
 */
module Boot {
  import opened Words
  import opened Wrappers
  import opened PageModel
  import opened PageInvariant
  import opened PageTranslation
  import opened PageProgress
  import opened RangeFrames
  import opened PageRoundTrip
  import opened LoaderPages
  import opened Handover
  import opened MemoryModel
  import opened MemoryRuns
  import opened MemoryOrder
  import opened PagesInOrder
  import opened PageAliased
  import Shared = SharedPages

  /** The kernel's frames end with the tracking array, at 0x3FF000. */
  const FRAMES_END: nat := 0x3FF

  /** The loader's tables `s` after the handover, and the page bitmap after `mm::init`. */
  function Started(s: Paging): Manager
  {
    Manager(Retained(s, FRAMES_END), NoneTracked(), map[])
  }

  /** A run of the loader's `map` from its constructor on the state `s0`. */
  ghost predicate LoaderBuilds(s0: Paging, trace: seq<Paging>, root: nat, rs: seq<Request>)
  {
    && s0.end <= FRAMES_END && (forall f | s0.start <= f < s0.end :: f in s0.mem)
    && (forall f | f in s0.taken :: s0.start <= f < s0.end) && root in s0.taken
    && LoaderRun(trace, root, rs) && trace[0] == Construct(s0, root)
    && (forall f | s0.start <= f < FRAMES_END :: f in trace[|rs|].mem)
  }

  lemma KernelStarts(s0: Paging, built: seq<Paging>, root: nat, rs: seq<Request>, mask: Phys.Mask)
    requires LoaderBuilds(s0, built, root, rs)
    ensures Owns(Started(built[|rs|]), root, mask) && Populated(Started(built[|rs|]).s, root)
    ensures Placed(Started(built[|rs|]), root) && Ordered(Started(built[|rs|]), mask, Phys.FIRST_PAGE)
    ensures Translation(Started(built[|rs|]).s.mem, root) == Extend(map[], rs)
    ensures Started(built[|rs|]).s == Retained(built[|rs|], 0x3FF) && Started(built[|rs|]).s.end == FRAMES_END
  {
    RunHandedOver(s0, built, root, rs, FRAMES_END);
    InitOrdered(Started(built[|rs|]).s, mask);
  }

  /**
    Loader, handover and any run of `mm::alloc`, failing calls included: an address the loader mapped still translates as
    its last `map` of the page said.
   */
  lemma LoaderMappingsStay(s0: Paging, built: seq<Paging>, root: nat, rs: seq<Request>,
                           trace: seq<Manager>, mask: Phys.Mask, calls: seq<Call>, j: nat, v: nat)
    requires LoaderBuilds(s0, built, root, rs) && trace != [] && trace[0] == Started(built[|rs|])
    requires Run(trace, root, mask, calls) && j < |trace|
    requires v < VIRTUAL_END && LookUp(Extend(map[], rs), v).Some?
    ensures Get(trace[j].s.mem, root, v) == LookUp(Extend(map[], rs), v)
  {
    hide *;
    KernelStarts(s0, built, root, rs, mask);
    RunKeepsMappings(trace, root, mask, calls, j);
    StillMapped(trace[j].s.mem, root, Extend(map[], rs), v);
  }

  lemma StillMapped(m: Memory, root: nat, t: map<nat, nat>, v: nat)
    requires Mapped(Translation(m, root), t) && v < VIRTUAL_END && LookUp(t, v).Some?
    ensures Get(m, root, v) == LookUp(t, v)
  {
    GetIsTranslation(m, root, v);
  }

  /**
    Over every run, failing calls included, no page granted by `mm::alloc` overlaps a page table, or any frame the kernel's
    allocator manages: writing through a granted range never changes the tables.
   */
  lemma GrantsAvoidTables(s0: Paging, built: seq<Paging>, root: nat, rs: seq<Request>,
                          trace: seq<Manager>, mask: Phys.Mask, calls: seq<Call>, j: nat, g: nat, f: nat)
    requires LoaderBuilds(s0, built, root, rs) && trace != [] && trace[0] == Started(built[|rs|])
    requires Run(trace, root, mask, calls) && j < |trace|
    requires g in trace[j].owned && f in trace[j].s.taken
    ensures g in Translation(trace[j].s.mem, root) && f * FRAME + FRAME <= Translation(trace[j].s.mem, root)[g]
  {
    hide *;
    KernelStarts(s0, built, root, rs, mask);
    RunKeepsMappings(trace, root, mask, calls, j);
    OwnedAboveTables(trace[j], root, g, f);
  }

  lemma OwnedAboveTables(m: Manager, root: nat, g: nat, f: nat)
    requires Placed(m, root) && m.s.end == FRAMES_END && g in m.owned && f in m.s.taken
    ensures g in Translation(m.s.mem, root) && f * FRAME + FRAME <= Translation(m.s.mem, root)[g]
  {
  }

  // --- pages the loader has mapped ---------------------------------------------------------------

  lemma {:induction false} ExtendTargets(rs: seq<Request>, h: nat)
    requires h in Extend(map[], rs)
    ensures exists i: nat :: i < |rs| && Extend(map[], rs)[h] == rs[i].Page()
  {
    var n := |rs| - 1;
    if rs[n].v / PAGE != h {
      ExtendTargets(rs[..n], h);
    }
  }

  lemma OwnedAboveLoader(m: Manager, root: nat, t: map<nat, nat>, g: nat, h: nat)
    requires Placed(m, root) && Mapped(Translation(m.s.mem, root), t) && g in m.owned && h in t
    requires t[h] < Phys.FIRST_PAGE * PAGE
    ensures var t' := Translation(m.s.mem, root); g in t' && h in t' && t'[g] != t'[h]
  {
  }

  /** If the loader mapped nothing at or above 6 MiB, no granted page is one it mapped. */
  lemma GrantsAvoidLoader(s0: Paging, built: seq<Paging>, root: nat, rs: seq<Request>,
                          trace: seq<Manager>, mask: Phys.Mask, calls: seq<Call>, j: nat, g: nat, h: nat)
    requires LoaderBuilds(s0, built, root, rs) && trace != [] && trace[0] == Started(built[|rs|])
    requires Run(trace, root, mask, calls) && j < |trace|
    requires forall i: nat | i < |rs| :: rs[i].p < Phys.FIRST_PAGE * PAGE
    requires g in trace[j].owned && h in Extend(map[], rs)
    ensures var t := Translation(trace[j].s.mem, root); g in t && h in t && t[g] != t[h]
  {
    ExtendTargets(rs, h);
    assert Extend(map[], rs)[h] < Phys.FIRST_PAGE * PAGE;
    hide *;
    KernelStarts(s0, built, root, rs, mask);
    RunKeepsMappings(trace, root, mask, calls, j);
    OwnedAboveLoader(trace[j], root, Extend(map[], rs), g, h);
  }

  lemma {:induction false} ExtendAligned(rs: seq<Request>, h: nat)
    requires h in Extend(map[], rs)
    ensures Extend(map[], rs)[h] % PAGE == 0
  {
    var n := |rs| - 1;
    if rs[n].v / PAGE != h {
      ExtendAligned(rs[..n], h);
    }
  }

  /** A granted page and one the loader mapped translate to the same physical page. */
  ghost predicate Meets(t: map<nat, nat>, owned: map<nat, nat>, loaded: map<nat, nat>)
  {
    exists g, h :: g in owned && h in loaded && g in t && h in t && t[g] == t[h]
  }

  /** The loader mapped a page from 6 MiB up to page `k`. */
  ghost predicate LoadedBelow(loaded: map<nat, nat>, k: nat)
  {
    exists h :: h in loaded && Phys.FIRST_PAGE * PAGE <= loaded[h] < k * PAGE
  }

  lemma MeetsIff(t: map<nat, nat>, owned: map<nat, nat>, loaded: map<nat, nat>, k: nat)
    requires Mapped(t, owned) && Mapped(t, loaded) && OwnsUpTo(owned, k) && (forall h | h in loaded :: loaded[h] % PAGE == 0)
    ensures Meets(t, owned, loaded) <==> LoadedBelow(loaded, k)
  {
    if Meets(t, owned, loaded) {
      var g, h :| g in owned && h in loaded && g in t && h in t && t[g] == t[h];
      assert loaded[h] == owned[g];
    }
    if LoadedBelow(loaded, k) {
      var h :| h in loaded && Phys.FIRST_PAGE * PAGE <= loaded[h] < k * PAGE;
      var p := loaded[h] / PAGE;
      assert loaded[h] == p * PAGE && OwnsPage(owned, p);
      var g :| g in owned && owned[g] == p * PAGE;
    }
  }

  /**
    Over a run that asks for no more than the pages from 6 MiB to 64 GiB: when pages up to `k` are tracked, a granted
    page is one the loader mapped if and only if the loader mapped one from 6 MiB up to page `k`.
   */
  lemma GrantsMeetLoaderIff(s0: Paging, built: seq<Paging>, root: nat, rs: seq<Request>,
                            trace: seq<Manager>, mask: Phys.Mask, calls: seq<Call>, j: nat, k: nat)
    requires LoaderBuilds(s0, built, root, rs) && trace != [] && trace[0] == Started(built[|rs|])
    requires Run(trace, root, mask, calls) && j < |trace| && Phys.OneBitMask(mask)
    requires Phys.FIRST_PAGE + Asked(calls) <= Phys.PAGE_LIMIT && UpTo(trace[j].words, mask, k)
    ensures Meets(Translation(trace[j].s.mem, root), trace[j].owned, Extend(map[], rs)) <==> LoadedBelow(Extend(map[], rs), k)
  {
    forall h | h in Extend(map[], rs)
      ensures Extend(map[], rs)[h] % PAGE == 0
    {
      ExtendAligned(rs, h);
    }
    hide LoaderBuilds, Started, Run, UpTo, Extend, Translation, Meets, LoadedBelow, OwnsUpTo, Mapped, Inv, Phys.OneBitMask;
    KernelStarts(s0, built, root, rs, mask);
    RunKeepsMappings(trace, root, mask, calls, j);
    var l := RunGrantsInOrder(trace, root, mask, calls, j, Phys.FIRST_PAGE);
    UpToOne(trace[j].words, mask, k, l);
    MeetsIff(Translation(trace[j].s.mem, root), trace[j].owned, Extend(map[], rs), k);
  }

  /** The first call after the boot: it is granted a page the loader mapped if and only if one lies in the range it is given. */
  lemma FirstCallMeetsLoaderIff(s0: Paging, built: seq<Paging>, root: nat, rs: seq<Request>,
                                mask: Phys.Mask, count: nat, flags: Word, m': Manager)
    requires LoaderBuilds(s0, built, root, rs) && Phys.OneBitMask(mask) && flags < PAGE
    requires Calls(Started(built[|rs|]), root, mask, Call(count, flags), m')
    requires Inv(Started(built[|rs|]).s, root) && |Started(built[|rs|]).words| == Phys.WORDS
    requires Alloc(Started(built[|rs|]).s, root, Started(built[|rs|]).words, mask, count, flags).Granted?
    ensures Meets(Translation(m'.s.mem, root), m'.owned, Extend(map[], rs)) <==>
              LoadedBelow(Extend(map[], rs), Phys.FIRST_PAGE + count)
  {
    var m := Started(built[|rs|]);
    hide LoaderBuilds, Started, UpTo, Extend, Translation, Meets, LoadedBelow, OwnsUpTo, Mapped, Inv, Phys.OneBitMask, Calls, Placed, Alloc;
    KernelStarts(s0, built, root, rs, mask);
    GrantMoves(m, root, mask, Call(count, flags), m', Phys.FIRST_PAGE);
    OneCall(m, root, mask, Call(count, flags), m');
    assert Asked([Call(count, flags)]) == count by { assert [Call(count, flags)][..0] == []; }
    GrantsMeetLoaderIff(s0, built, root, rs, [m, m'], mask, [Call(count, flags)], 1, Phys.FIRST_PAGE + count);
  }

  lemma OneCall(m: Manager, root: nat, mask: Phys.Mask, call: Call, m': Manager)
    requires Calls(m, root, mask, call, m')
    ensures Run([m, m'], root, mask, [call])
  {
    hide Calls;
  }

  /** With any mask: the kernel at 6 MiB, the first call for one page, if it is granted, is granted the page the loader mapped there. */
  lemma FirstGrantIsLoaderPage(s0: Paging, built: seq<Paging>, root: nat, rs: seq<Request>, mask: Phys.Mask, flags: Word, h: nat)
    requires LoaderBuilds(s0, built, root, rs) && flags < PAGE
    requires h in Extend(map[], rs) && Extend(map[], rs)[h] == Phys.FIRST_PAGE * PAGE
    ensures var m := Started(built[|rs|]);
      && Inv(m.s, root) && |m.words| == Phys.WORDS
      && var r := Alloc(m.s, root, m.words, mask, 1, flags);
      r.Granted? ==>
        var t := Translation(r.s.mem, root); r.first != h && r.first in t && h in t && t[r.first] == t[h]
  {
    var m := Started(built[|rs|]);
    KernelStarts(s0, built, root, rs, mask);
    NothingTracked(mask);
    hide Inv, Started, LoaderBuilds, Translation, Extend;
    var r := Alloc(m.s, root, m.words, mask, 1, flags);
    if r.Granted? {
      Phys.LowestPageGranted(m.words, mask, Phys.FIRST_PAGE);
      AllocMapsRange(m.s, root, m.words, mask, 1, flags);
      AddAt(Translation(m.s.mem, root), r.first, r.pages, r.first);
      AddAt(Translation(m.s.mem, root), r.first, r.pages, h);
    }
  }

  lemma NothingTracked(mask: Phys.Mask)
    ensures !Phys.Tracked(NoneTracked(), mask, Phys.FIRST_PAGE)
  {
    InitTracksNone(mask);
  }

  // --- such a boot --------------------------------------------------------------------------------

  const ROOT: nat := 0x100
  const KERNEL_PAGE: Request := Request(0x40_0000, 0x60_0000, 0x80)

  predicate KernelFrame(f: nat)
  {
    ROOT <= f < FRAMES_END
  }

  /** The loader's paging region with the root table marked, and memory up to the kernel's arrays. */
  function Region(): Paging
  {
    Paging(ROOT, 0x200, {ROOT}, map[], map f: nat | f < FRAMES_END && KernelFrame(f) :: ZeroTable())
  }

  lemma RegionOk()
    ensures LoaderOk(Region(), ROOT) && NoEmptyTable(Region().mem, ROOT) && Construct(Region(), ROOT) == Region()
  {
    RegionFrames();
    ConstructedTree(Region(), ROOT);
    assert Construct(Region(), ROOT).mem == Region().mem;
  }

  lemma TwoFree(s: Paging)
    requires s.start == ROOT && s.end == 0x200 && s.taken == {ROOT}
    ensures LowestFree(s, s.start) == Some(ROOT + 1)
    ensures LowestFree(s.(taken := {ROOT, ROOT + 1}, mem := s.mem[ROOT + 1 := ZeroTable()]), s.start) == Some(ROOT + 2)
  {
    assert LowestFree(s, ROOT + 1) == Some(ROOT + 1);
    var s1 := s.(taken := {ROOT, ROOT + 1}, mem := s.mem[ROOT + 1 := ZeroTable()]);
    assert LowestFree(s1, ROOT + 2) == Some(ROOT + 2) && LowestFree(s1, ROOT + 1) == Some(ROOT + 2);
  }

  lemma RegionMaps(s: Paging, e: Word)
    requires LoaderOk(s, ROOT) && s == Region()
    ensures LoaderMapEntry(s, ROOT, 0, 0, 2, e).Some?
    ensures s.mem.Keys <= LoaderMapEntry(s, ROOT, 0, 0, 2, e).value.mem.Keys
  {
    TwoFree(s);
    assert s.taken + {ROOT + 1} == {ROOT, ROOT + 1};
    assert !HasPdpt(s.mem, ROOT, 0);
  }

  /** One request that the loader's `map` completes, on a region that its constructor leaves alone. */
  lemma BuildsOne(s0: Paging, s1: Paging, root: nat, r: Request)
    requires LoaderOk(s0, root) && s0 == Construct(s0, root) && s0.end <= FRAMES_END
    requires ValidRequest(r) && LoaderMap(s0, root, r.v, r.p, r.flags) == Some(s1)
    requires forall f: nat | s0.start <= f < FRAMES_END :: f in s0.mem && f in s1.mem
    ensures LoaderBuilds(s0, [s0, s1], root, [r])
  {
    hide LoaderMap, Construct;
    assert root in s0.taken && LoaderMaps(s0, root, r, s1);
  }

  lemma RegionMapped(s: Paging, r: Request) returns (s1: Paging)
    requires LoaderOk(s, ROOT) && s == Region() && r.v < VIRTUAL_END && I4(r.v) == 0 && I3(r.v) == 0 && I2(r.v) == 2
    ensures LoaderMap(s, ROOT, r.v, r.p, r.flags) == Some(s1) && s.mem.Keys <= s1.mem.Keys
  {
    hide LoaderMapEntry, LoaderPageEntry, LoaderOk, Region;
    RegionMaps(s, LoaderPageEntry(r.p, r.flags));
    s1 := LoaderMapEntry(s, ROOT, 0, 0, 2, LoaderPageEntry(r.p, r.flags)).value;
  }

  lemma OneRequest() returns (built: seq<Paging>)
    ensures LoaderBuilds(Region(), built, ROOT, [KERNEL_PAGE])
  {
    RegionOk();
    RegionFrames();
    hide LoaderBuilds, LoaderMap, LoaderOk, Construct;
    var s1 := RegionMapped(Region(), KERNEL_PAGE);
    BuildsOne(Region(), s1, ROOT, KERNEL_PAGE);
    built := [Region(), s1];
  }

  lemma RegionFrames()
    ensures forall f: nat | ROOT <= f < FRAMES_END :: f in Region().mem
  {
    assert forall f: nat | ROOT <= f < FRAMES_END :: KernelFrame(f);
  }

  lemma OneExtended()
    ensures Extend(map[], [KERNEL_PAGE]) == map[2 := 0x60_0000]
  {
    assert [KERNEL_PAGE][..0] == [];
  }

  lemma EnoughFrames(s: Paging, s0: Paging)
    requires LoaderOk(s, ROOT) && s.end == 0x200 && s.start == ROOT && s0 == Retained(s, FRAMES_END)
    ensures 67 <= |FreeFrames(s0)|
  {
    hide Wipe, RetainedRefs, LastMarked, FramesFrom;
    var some := FramesFrom(0x200, 67);
    assert some <= FreeFrames(s0);
    SubsetSize(some, FreeFrames(s0));
  }

  /** The `n` frames from `lo` on. */
  function FramesFrom(lo: nat, n: nat): (r: set<nat>)
    ensures |r| == n && forall f | f in r :: lo <= f < lo + n
  {
    if n == 0 then {} else FramesFrom(lo, n - 1) + {lo + n - 1}
  }

  lemma SubsetSize(s: set<nat>, t: set<nat>)
    requires s <= t
    ensures |s| <= |t|
  {
    assert t == s + (t - s);
  }

  lemma FirstRangeFree()
    ensures FindRange(map[2 := 0x60_0000], 1) == Some(FIRST)
  {
  }

  /**
    An input at which it happens: the loader maps address 4 MiB to 6 MiB, as it does with a kernel loaded there, and
    the first page that `mm::alloc` grants is the kernel's.
   */
  lemma GrantCanBeLoaderPage(mask: Phys.Mask, flags: Word)
    requires flags < PAGE
    ensures exists built: seq<Paging> ::
      && LoaderBuilds(Region(), built, ROOT, [KERNEL_PAGE])
      && var m := Started(built[1]);
      && Inv(m.s, ROOT) && |m.words| == Phys.WORDS
      && var r := Alloc(m.s, ROOT, m.words, mask, 1, flags);
      && r.Granted? && var t := Translation(r.s.mem, ROOT);
      && r.first != 2 && r.first in t && 2 in t && t[r.first] == t[2]
  {
    var built := OneRequest();
    OneExtended();
    FirstGrantIsLoaderPage(Region(), built, ROOT, [KERNEL_PAGE], mask, flags, 2);
    FirstCallGranted(built, mask, flags);
    hide Inv, Alloc, Started, Translation, LoaderBuilds;
    assert LoaderBuilds(Region(), built, ROOT, [KERNEL_PAGE]);
  }

  lemma BuiltOk(built: seq<Paging>)
    requires LoaderBuilds(Region(), built, ROOT, [KERNEL_PAGE])
    ensures LoaderOk(built[1], ROOT) && built[1].start == ROOT && built[1].end == 0x200
  {
    RegionOk();
    ConstructedTree(Region(), ROOT);
    LoaderRunKeeps(built, ROOT, [KERNEL_PAGE], 1);
  }

  lemma FirstCallGranted(built: seq<Paging>, mask: Phys.Mask, flags: Word)
    requires LoaderBuilds(Region(), built, ROOT, [KERNEL_PAGE]) && flags < PAGE
    requires Extend(map[], [KERNEL_PAGE]) == map[2 := 0x60_0000]
    ensures var m := Started(built[1]);
      Inv(m.s, ROOT) && |m.words| == Phys.WORDS && Alloc(m.s, ROOT, m.words, mask, 1, flags).Granted?
  {
    var m := Started(built[1]);
    KernelStarts(Region(), built, ROOT, [KERNEL_PAGE], mask);
    BuiltOk(built);
    EnoughFrames(built[1], m.s);
    NothingTracked(mask);
    FirstRangeFree();
    hide Inv, LoaderBuilds, Retained, Translation, Extend, FreeFrames;
    Phys.LowestPageGranted(m.words, mask, Phys.FIRST_PAGE);
    AllocPanicsIff(m.s, ROOT, m.words, mask, 1, flags);
    OneMissing(m.s.mem, ROOT, FIRST);
  }

  // --- the run that shares pages, and the one that unmaps, from there ---------------------------------

  lemma BootedRoomy(built: seq<Paging>, mask: Phys.Mask)
    requires LoaderBuilds(Region(), built, ROOT, [KERNEL_PAGE])
    ensures Shared.Roomy(Started(built[1]).s, ROOT) && Started(built[1]) == Manager(Started(built[1]).s, NoneTracked(), map[])
  {
    KernelStarts(Region(), built, ROOT, [KERNEL_PAGE], mask);
    OneExtended();
    BuiltOk(built);
    EnoughFrames(built[1], Started(built[1]).s);
    hide LoaderBuilds, LoaderOk, Retained, Translation, Extend, FreeFrames, Inv;
  }

  /** Booted like this the kernel can be led to grant one physical page twice. */
  lemma BootedGrantsCanShare(mask: Phys.Mask)
    requires Phys.OneBitMask(mask)
    ensures exists built, trace, calls ::
      && LoaderBuilds(Region(), built, ROOT, [KERNEL_PAGE]) && trace != [] && trace[0] == Started(built[1])
      && Shared.EndsSharing(trace, calls, Started(built[1]).s, ROOT, mask)
  {
    var built := OneRequest();
    BootedRoomy(built, mask);
    hide LoaderBuilds, Started, Shared.Roomy, Shared.EndsSharing, Phys.OneBitMask;
    Shared.GrantsCanShare(Started(built[1]).s, ROOT, mask);
    var trace, calls :| Shared.EndsSharing(trace, calls, Started(built[1]).s, ROOT, mask);
    SharingStarts(trace, calls, Started(built[1]).s, mask);
  }

  lemma SharingStarts(trace: seq<Manager>, calls: seq<Call>, s: Paging, mask: Phys.Mask)
    requires Shared.EndsSharing(trace, calls, s, ROOT, mask)
    ensures trace != [] && trace[0] == Manager(s, NoneTracked(), map[])
  {
    hide Calls, NoneTracked;
  }

  lemma RegionEmpty()
    ensures forall x :: !HasPdpt(Region().mem, ROOT, x)
  {
    RegionFrames();
  }

  /** One `map` into tables that are empty, and the handover. */
  lemma FirstTables(s0: Paging, s1: Paging, root: nat, r: Request)
    requires LoaderOk(s0, root) && (forall x :: !HasPdpt(s0.mem, root, x)) && LoaderMaps(s0, root, r, s1)
    requires s1.end <= FRAMES_END && forall f | s1.start <= f < FRAMES_END :: f in s1.mem
    ensures forall x :: HasPdpt(Retained(s1, FRAMES_END).mem, root, x) <==> x == I4(r.v)
  {
    PageIndices(r.v);
    hide LoaderMapEntry, LoaderPageEntry, Tree, HasPdpt;
    LoaderMapEffect(s0, root, I4(r.v), I3(r.v), I2(r.v), LoaderPageEntry(r.p, r.flags), s1);
    HandoverKeepsTables(s1, root, FRAMES_END);
    SameTree(s1.mem, Retained(s1, FRAMES_END).mem, s1.taken, root);
  }

  lemma BuiltByOne(built: seq<Paging>)
    requires LoaderBuilds(Region(), built, ROOT, [KERNEL_PAGE])
    ensures LoaderMaps(Region(), ROOT, KERNEL_PAGE, built[1])
    ensures forall f | ROOT <= f < FRAMES_END :: f in built[1].mem
  {
    RegionOk();
    hide LoaderMap, LoaderOk, Region;
    assert LoaderMaps(built[0], ROOT, [KERNEL_PAGE][0], built[0 + 1]);
  }

  lemma BootedTables(built: seq<Paging>)
    requires LoaderBuilds(Region(), built, ROOT, [KERNEL_PAGE])
    ensures forall x :: HasPdpt(Started(built[1]).s.mem, ROOT, x) <==> x == 0
  {
    RegionOk();
    RegionEmpty();
    BuiltOk(built);
    BuiltByOne(built);
    hide LoaderBuilds, LoaderMaps, LoaderOk, Region, Retained, HasPdpt;
    FirstTables(Region(), built[1], ROOT, KERNEL_PAGE);
  }

  lemma Places(v: nat, w: nat)
    requires v == 0x80_0000_0000 && w == 0x100_0000_0000
    ensures v < VIRTUAL_END && w < VIRTUAL_END && v % PAGE == 0 && w % PAGE == 0
    ensures I4(v) == 1 && I4(w) == 2 && I3(v) == I3(w) && I2(v) == I2(w)
  {
  }

  /** From there too `map`, `unmap` and `map` of another address make an address that nothing maps translate. */
  lemma BootedUnmapTranslates(p: Word, q: Word, flags: Word, v: nat, w: nat)
    requires p % PAGE == 0 && q % PAGE == 0 && flags < PAGE && v == 0x80_0000_0000 && w == 0x100_0000_0000
    ensures exists built, s3 ::
      && LoaderBuilds(Region(), built, ROOT, [KERNEL_PAGE])
      && Reached(Started(built[1]).s, ROOT, v, p, w, q, flags, s3) && Get(s3.mem, ROOT, v) == Some(q)
  {
    var built := OneRequest();
    BootedTables(built);
    BootedRoomy(built, _ => 1);
    RoomyInv(Started(built[1]).s);
    Places(v, w);
    hide *;
    var s3 := UnmappedPageTranslates(Started(built[1]).s, ROOT, v, p, w, q, flags);
  }

  lemma RoomyInv(s: Paging)
    requires Shared.Roomy(s, ROOT)
    ensures Inv(s, ROOT) && 2 <= |FreeFrames(s)|
  {
    hide Inv, FreeFrames, Translation;
  }
}
