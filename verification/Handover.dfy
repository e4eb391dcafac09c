/**
  The step from the loader's paging to the kernel's: where the kernel puts its arrays, which
  frames it retains, and why its PML4 translates as the loader's did.
 */
module Handover {
  import opened PageModel
  import opened PageInvariant
  import opened PageTranslation
  import opened PageRoundTrip
  import opened LoaderPages

  const KERNEL_LOCATION: nat := 0x40_0000

  // --- placement of the tracking and refcount arrays ------------------------------------------

  function TrackingDelta(end: nat): nat
    requires end <= KERNEL_LOCATION
  {
    (KERNEL_LOCATION - end) / 0x4_0000 * 8
  }

  function TrackingOld(start: nat, end: nat): nat
    requires start <= end
  {
    (end - start) / 0x4_0000 * 8
  }

  /** `(KERNEL_LOCATION - trackingDelta - trackingOld) & ~0xFFF`. */
  function TrackingAddr(start: nat, end: nat): nat
    requires start <= end <= KERNEL_LOCATION
  {
    var below := KERNEL_LOCATION - TrackingDelta(end) - TrackingOld(start, end);
    below - below % FRAME
  }

  function RefcountSize(start: nat): nat
    requires start <= KERNEL_LOCATION
  {
    (KERNEL_LOCATION - start) / FRAME * 2
  }

  function RefcountAddr(start: nat, end: nat): nat
    requires start <= end <= KERNEL_LOCATION
  {
    TrackingAddr(start, end) + TrackingDelta(end) + TrackingOld(start, end)
  }

  /**
    The arrays follow each other in [TrackingAddr, KERNEL_LOCATION), above the frames that are
    left to allocate, and have a bit and a 16-bit counter for each of these.
   */
  lemma LayoutFits(start: nat, end: nat)
    requires start % 0x4_0000 == 0 && end % 0x4_0000 == 0 && start < end < KERNEL_LOCATION
    ensures end <= TrackingAddr(start, end) && TrackingAddr(start, end) % FRAME == 0
    ensures TrackingAddr(start, end) + TrackingOld(start, end) + TrackingDelta(end) <= RefcountAddr(start, end)
    ensures RefcountAddr(start, end) + RefcountSize(start) <= KERNEL_LOCATION
    ensures (TrackingAddr(start, end) - start) / FRAME <= (TrackingOld(start, end) + TrackingDelta(end)) * 8
    ensures (TrackingAddr(start, end) - start) / FRAME * 2 <= RefcountSize(start)
    ensures TrackingAddr(start, end) == 0x3F_F000
    ensures TrackingOld(start, end) + TrackingDelta(end) == (0x40_0000 - start) / 0x4_0000 * 8
    ensures RefcountAddr(start, end) == 0x3F_F000 + (0x40_0000 - start) / 0x4_0000 * 8
    ensures RefcountSize(start) == (0x40_0000 - start) / 0x1000 * 2
  {
    var a, b := start / 0x4_0000, end / 0x4_0000;
    assert start == a * 0x4_0000 && end == b * 0x4_0000;
    assert (end - start) / 0x4_0000 == b - a && (KERNEL_LOCATION - end) / 0x4_0000 == 16 - b;
  }

  // --- the retained state ------------------------------------------------------------------------

  /** The highest marked frame below `f`, 0 if there is none. */
  function LastMarked(s: Paging, f: nat): (r: nat)
    ensures r == 0 || (s.start <= r < f && r in s.taken)
    ensures forall g: nat | s.start <= g < f && g in s.taken :: g <= r
  {
    if f <= s.start then 0
    else if f - 1 in s.taken then f - 1
    else LastMarked(s, f - 1)
  }

  function Wipe(m: Memory, lo: nat, hi: nat): Memory
  {
    map f | f in m :: if lo <= f < hi then ZeroTable() else m[f]
  }

  function RetainedRefs(s: Paging, newEnd: nat): map<nat, nat>
  {
    map f: nat | s.start <= f < newEnd && f in s.mem :: if f in s.taken then Count(s.mem[f]) else 0
  }

  /** What `retainLoaderPaging` makes of the loader's frames `s`, with frames up to `newEnd`. */
  function Retained(s: Paging, newEnd: nat): Paging
  {
    Paging(s.start, newEnd, s.taken, RetainedRefs(s, newEnd), Wipe(s.mem, LastMarked(s, s.end) + 1, newEnd))
  }

  /**
    Every frame above all marked ones and below `newEnd` is zeroes afterwards, entry by entry, and every other frame is as
    it was. (Frame 0 is never above: with no frame marked at all the wipe starts at the next.)
   */
  lemma RetainedWipes(s: Paging, newEnd: nat, f: nat)
    requires s.end <= newEnd && (forall g | g in s.taken :: s.start <= g < s.end) && f in s.mem
    ensures Retained(s, newEnd).mem.Keys == s.mem.Keys
    ensures var t := Retained(s, newEnd).mem[f];
      if 0 < f < newEnd && (forall g | g in s.taken :: g < f) then forall i: nat | i < 512 :: t[i] == 0 else t == s.mem[f]
  {
    var last := LastMarked(s, s.end);
    if last in s.taken && last != 0 {
    } else if exists g :: g in s.taken && g >= f {
      var g :| g in s.taken && g >= f;
      assert g <= last;
    }
  }

  /** Two memories with the same tables in the frames of a tree have the same tree. */
  lemma SameTree(m: Memory, m': Memory, frames: set<nat>, root: nat)
    requires Tree(m, frames, root) && frames <= m'.Keys && (forall f | f in frames :: m'[f] == m[f])
    ensures Tree(m', frames, root)
    ensures forall i :: HasPdpt(m', root, i) == HasPdpt(m, root, i) && Pdpt(m', root, i) == Pdpt(m, root, i)
    ensures forall i, j :: HasPd(m', root, i, j) == HasPd(m, root, i, j)
    ensures forall i, j | HasPd(m, root, i, j) :: Pd(m', root, i, j) == Pd(m, root, i, j)
    ensures forall i, j, k :: Leaf(m', root, i, j, k) == Leaf(m, root, i, j, k)
  {
    assert forall f, x | f in frames :: Entry(m', f, x) == Entry(m, f, x);
    assert forall i :: Entry(m', root, i) == Entry(m, root, i);
    SamePdpts(m, m', root);
    forall i, j
      ensures HasPd(m', root, i, j) == HasPd(m, root, i, j)
      ensures HasPd(m, root, i, j) ==> Pd(m', root, i, j) == Pd(m, root, i, j)
      ensures forall k :: Leaf(m', root, i, j, k) == Leaf(m, root, i, j, k)
    {
      if HasPdpt(m, root, i) {
        assert Entry(m', Pdpt(m, root, i), j) == Entry(m, Pdpt(m, root, i), j);
        if HasPd(m, root, i, j) {
          assert forall k :: Entry(m', Pd(m, root, i, j), k) == Entry(m, Pd(m, root, i, j), k);
        }
      }
    }
  }

  lemma TranslationOfSameLeaves(m: Memory, m': Memory, root: nat)
    requires forall i, j, k :: Leaf(m', root, i, j, k) == Leaf(m, root, i, j, k)
    ensures Translation(m', root) == Translation(m, root)
  {
    forall g: nat
      ensures PageLeaf(m', root, g) == PageLeaf(m, root, g)
    {
    }
  }

  lemma RetainedFrames(s: Paging, newEnd: nat, f: nat)
    requires f in s.taken && s.start <= f < s.end <= newEnd && f in s.mem
    ensures f in Retained(s, newEnd).mem && Retained(s, newEnd).mem[f] == s.mem[f]
    ensures CountedAt(Retained(s, newEnd), f)
  {
  }

  lemma TableCount(m: Memory, f: nat, x: nat)
    requires f in m && Present(Entry(m, f, x))
    ensures Count(m[f]) > 0
  {
    assert x in PresentSlots(m[f]);
  }

  /**
    The handover: no retained frame is wiped, every retained frame is counted by its present
    entries, and the tables are a tree of marked frames that translates as before.
   */
  lemma HandoverKeepsTables(s: Paging, root: nat, newEnd: nat)
    requires LoaderOk(s, root) && s.end <= newEnd <= FRAMES_32
    requires forall f | s.start <= f < newEnd :: f in s.mem
    ensures var k := Retained(s, newEnd);
      && (forall f | f in s.taken :: f in s.mem && f in k.mem && k.mem[f] == s.mem[f] && CountedAt(k, f))
      && Inv(k, root) && Translation(k.mem, root) == Translation(s.mem, root)
  {
    var k := Retained(s, newEnd);
    forall f | f in s.taken
      ensures f in s.mem && f in k.mem && k.mem[f] == s.mem[f] && CountedAt(k, f)
    {
      RetainedFrames(s, newEnd, f);
    }
    SameTree(s.mem, k.mem, s.taken, root);
    TranslationOfSameLeaves(s.mem, k.mem, root);
  }

  lemma HandoverPopulated(s: Paging, root: nat, newEnd: nat)
    requires LoaderOk(s, root) && NoEmptyTable(s.mem, root) && s.end <= newEnd <= FRAMES_32
    requires forall f | s.start <= f < newEnd :: f in s.mem
    ensures Populated(Retained(s, newEnd), root)
  {
    var k := Retained(s, newEnd);
    HandoverKeepsTables(s, root, newEnd);
    SameTree(s.mem, k.mem, s.taken, root);
    forall i | HasPdpt(k.mem, root, i)
      ensures Referenced(k, Pdpt(k.mem, root, i), root)
    {
      var p := Pdpt(s.mem, root, i);
      var j :| HasPd(s.mem, root, i, j);
      TableCount(s.mem, p, j);
      assert CountedAt(k, p);
    }
    forall i, j | HasPd(k.mem, root, i, j)
      ensures Referenced(k, Pd(k.mem, root, i, j), root)
    {
      var d := Pd(s.mem, root, i, j);
      var z :| Present(Leaf(s.mem, root, i, j, z));
      TableCount(s.mem, d, z);
      assert CountedAt(k, d);
    }
  }

  lemma RunHandedOver(s0: Paging, trace: seq<Paging>, root: nat, rs: seq<Request>, newEnd: nat)
    requires s0.end <= newEnd <= FRAMES_32 && (forall f | s0.start <= f < s0.end :: f in s0.mem)
    requires (forall f | f in s0.taken :: s0.start <= f < s0.end) && root in s0.taken
    requires LoaderRun(trace, root, rs) && trace[0] == Construct(s0, root)
    requires forall f | s0.start <= f < newEnd :: f in trace[|rs|].mem
    ensures
      var k := Retained(trace[|rs|], newEnd);
      Inv(k, root) && Populated(k, root) && Translation(k.mem, root) == Extend(map[], rs)
  {
    ConstructedTree(s0, root);
    LoaderRunKeeps(trace, root, rs, |rs|);
    assert rs[..|rs|] == rs;
    HandoverKeepsTables(trace[|rs|], root, newEnd);
    HandoverPopulated(trace[|rs|], root, newEnd);
  }

  /**
    From the loader's constructor to the kernel: after any run of the loader's `map`, the
    kernel's `get` finds what the last `map` of the page wrote, and nothing else.
   */
  lemma KernelSeesLoaderMappings(s0: Paging, trace: seq<Paging>, root: nat, rs: seq<Request>, newEnd: nat, v: nat)
    requires s0.end <= newEnd <= FRAMES_32 && (forall f | s0.start <= f < s0.end :: f in s0.mem)
    requires (forall f | f in s0.taken :: s0.start <= f < s0.end) && root in s0.taken
    requires LoaderRun(trace, root, rs) && trace[0] == Construct(s0, root)
    requires forall f | s0.start <= f < newEnd :: f in trace[|rs|].mem
    requires v < VIRTUAL_END
    ensures Get(Retained(trace[|rs|], newEnd).mem, root, v) == LookUp(Extend(map[], rs), v)
  {
    var m := Retained(trace[|rs|], newEnd).mem;
    assert Translation(m, root) == Extend(map[], rs) by {
      RunHandedOver(s0, trace, root, rs, newEnd);
    }
    GetIsTranslation(m, root, v);
  }
}
