/**
  The kernel's page-table code with its module state: the tracking array, the array of
  16-bit reference counts, and the frames themselves. Every method is tied to its function
  in `PageModel` through `View`.
 */
module PageManager {
  import opened Words
  import opened Wrappers
  import opened Bitmaps
  import opened PageModel
  import opened PageInvariant
  import opened PageEntries
  import opened Handover

  // --- single expressions on addresses and entries -------------------------------------------

  method TestPresent(e: Word) returns (b: bool)
    ensures b <==> Present(e)
  {
    assert Pow2(1) == 2;
    MaskLow(e, 1);
    b := And(e, F_PRESENT) != 0;
  }

  /** `entry & ~0xFFF`, as a frame number. */
  method TableOf(e: Word) returns (frame: nat)
    ensures frame == Target(e)
  {
    Pow2Values();
    MaskHigh64(e, 12);
    frame := And(e, Not64(0xFFF)) / FRAME;
  }

  method PageAligned(addr: Word) returns (b: bool)
    ensures b <==> addr % PAGE == 0
  {
    Pow2Values();
    MaskLow(addr, 21);
    b := And(addr, 0x1F_FFFF) == 0;
  }

  method Indices(vaddr: Word) returns (pml4i: nat, pdpti: nat, pdi: nat)
    ensures pml4i == I4(vaddr) && pdpti == I3(vaddr) < 512 && pdi == I2(vaddr) < 512
  {
    assert Pow2(9) == 512;
    MaskLow(vaddr / 0x4000_0000, 9);
    MaskLow(vaddr / 0x20_0000, 9);
    pml4i := vaddr / 0x80_0000_0000;
    pdpti := And(vaddr / 0x4000_0000, 0x1FF);
    pdi := And(vaddr / 0x20_0000, 0x1FF);
  }

  /** `(entry & ~0x1FFFFF) | low`. */
  method PageAddress(e: Word, vaddr: Word) returns (addr: nat)
    ensures addr == e - e % PAGE + vaddr % PAGE
  {
    Pow2Values();
    MaskHigh64(e, 21);
    MaskLow(vaddr, 21);
    RoundedMultiple(e);
    OrDisjoint(e - e % PAGE, vaddr % PAGE, 21);
    addr := Or(And(e, Not64(0x1F_FFFF)), And(vaddr, 0x1F_FFFF));
  }

  lemma RoundedMultiple(e: nat)
    ensures (e - e % PAGE) % PAGE == 0
  {
  }

  method MakeTableEntry(frame: nat) returns (e: Word)
    requires frame * FRAME + 3 < TWO_64
    ensures e == TableEntry(frame)
  {
    TableEntryIsOr(frame);
    e := Or64(Or64(frame * FRAME, F_PRESENT), F_RW);
  }

  // --- what the array of counters says about frames [lo, hi) ------------------------------------

  function Counter(counts: seq<nat>, lo: nat, f: nat): nat
  {
    if lo <= f && f - lo < |counts| then counts[f - lo] else 0
  }

  predicate Within(f: nat, lo: nat, hi: nat)
  {
    lo <= f < hi
  }

  function Counters(counts: seq<nat>, lo: nat, hi: nat): map<nat, nat>
  {
    map f: nat | lo <= f < hi && Within(f, lo, hi) :: Counter(counts, lo, f)
  }

  lemma CountersAfter(counts: seq<nat>, lo: nat, hi: nat, f: nat, n: nat)
    requires lo <= f < hi && hi - lo <= |counts|
    ensures Counters(counts[f - lo := n], lo, hi) == Counters(counts, lo, hi)[f := n]
    ensures f in Counters(counts, lo, hi) && Counters(counts, lo, hi)[f] == counts[f - lo]
  {
  }

  lemma CountersOutside(counts: seq<nat>, lo: nat, hi: nat, f: nat, n: nat)
    requires lo <= hi <= f < lo + |counts|
    ensures Counters(counts[f - lo := n], lo, hi) == Counters(counts, lo, hi)
  {
  }

  lemma OffsetInFrames(addr: nat, start: nat)
    requires start % FRAME == 0 && start <= addr
    ensures (addr - start) / FRAME == addr / FRAME - start / FRAME && start / FRAME <= addr / FRAME
  {
    var q, p := start / FRAME, addr / FRAME;
    assert start == q * FRAME && addr == p * FRAME + addr % FRAME;
    DivModUnique(addr - start, FRAME, p - q, addr % FRAME);
  }

  lemma FramesInOrder(addr: nat, end: nat)
    requires end % FRAME == 0 && addr <= end
    ensures addr < end ==> addr / FRAME < end / FRAME
    ensures addr / FRAME <= end / FRAME
  {
  }

  lemma NewPdResult(s: Paging, s1: Paging, pdpt: nat, j: nat, pd: nat, k: nat, e: Word)
    requires Space(s) && pdpt in s.refs && j < 512 && k < 512 && !Present(Entry(s.mem, pdpt, j))
    requires AllocFrame(s) == Some((s1, pd))
    ensures pd in s1.refs && pd in s1.mem && pdpt in s1.mem && pdpt in s1.refs && pd * FRAME + 3 < TWO_64
    ensures MapInPdpt(s, pdpt, j, k, e) ==
      Some(IncRefs(IncRefs(s1.(mem := Write(Write(s1.mem, pd, k, e), pdpt, j, TableEntry(pd))), pd), pdpt))
  {
  }

  lemma NewTablesResult(s: Paging, s1: Paging, s2: Paging, root: nat, i: nat, pdpt: nat, j: nat, pd: nat, k: nat, e: Word)
    requires Space(s) && root in s.mem && i < 512 && j < 512 && k < 512
    requires AllocFrame(s) == Some((s1, pdpt)) && AllocFrame(s1) == Some((s2, pd))
    ensures pd in s2.refs && pd in s2.mem && pdpt in s2.mem && pdpt in s2.refs && root in s2.mem
    ensures pd * FRAME + 3 < TWO_64 && pdpt * FRAME + 3 < TWO_64
    ensures MapFresh(s, root, i, j, k, e) ==
      Some(IncRefs(IncRefs(s2.(mem :=
        Write(Write(Write(s2.mem, pd, k, e), pdpt, j, TableEntry(pd)), root, i, TableEntry(pdpt))), pd), pdpt))
  {
  }

  // --- counting as retainLoaderPaging does ----------------------------------------------------

  function FirstSlots(t: Table, n: nat): set<nat>
  {
    set x: nat | x < 512 && x < n && Present(t[x])
  }

  lemma NextSlot(t: Table, n: nat)
    requires n < 512
    ensures |FirstSlots(t, n + 1)| == |FirstSlots(t, n)| + if Present(t[n]) then 1 else 0
    ensures |FirstSlots(t, n)| <= n
  {
    BoundedSetSize(n, FirstSlots(t, n));
    if Present(t[n]) {
      assert FirstSlots(t, n + 1) == FirstSlots(t, n) + {n};
    } else {
      assert FirstSlots(t, n + 1) == FirstSlots(t, n);
    }
  }

  lemma AllSlots(t: Table)
    ensures |FirstSlots(t, 0)| == 0 && |FirstSlots(t, 512)| == Count(t)
  {
    assert FirstSlots(t, 0) == {};
    assert FirstSlots(t, 512) == PresentSlots(t);
  }

  /** The marked frames below `f`, and the counts of the frames when only those are retained. */
  function TakenBelow(taken: set<nat>, f: nat): set<nat>
  {
    set g | g in taken && g < f
  }

  function RefsBelow(s: Paging, newEnd: nat, f: nat): map<nat, nat>
  {
    map g: nat | s.start <= g < newEnd && Within(g, s.start, newEnd) ::
      if g in s.taken && g < f && g in s.mem then Count(s.mem[g]) else 0
  }

  lemma RetainOne(s: Paging, newEnd: nat, f: nat)
    requires s.start <= f < s.end <= newEnd && f in s.mem
    ensures TakenBelow(s.taken, f + 1) == TakenBelow(s.taken, f) + (if f in s.taken then {f} else {})
    ensures RefsBelow(s, newEnd, f + 1) == RefsBelow(s, newEnd, f)[f := if f in s.taken then Count(s.mem[f]) else 0]
    ensures f in RefsBelow(s, newEnd, f) && RefsBelow(s, newEnd, f)[f] == 0
    ensures LastMarked(s, f + 1) == if f in s.taken then f else LastMarked(s, f)
  {
    var a, b := RefsBelow(s, newEnd, f + 1), RefsBelow(s, newEnd, f)[f := if f in s.taken then Count(s.mem[f]) else 0];
    assert forall g: nat | s.start <= g < newEnd :: Within(g, s.start, newEnd);
    assert a.Keys == b.Keys;
  }

  lemma RetainNone(s: Paging, newEnd: nat)
    requires forall g | g in s.taken :: s.start <= g
    ensures TakenBelow(s.taken, s.start) == {} && LastMarked(s, s.start) == 0
    ensures forall g | g in RefsBelow(s, newEnd, s.start) :: RefsBelow(s, newEnd, s.start)[g] == 0
  {
  }

  lemma RetainAll(s: Paging, newEnd: nat)
    requires (forall g | g in s.taken :: s.start <= g < s.end) && (forall g | Within(g, s.start, newEnd) :: g in s.mem)
    ensures TakenBelow(s.taken, s.end) == s.taken && RefsBelow(s, newEnd, s.end) == RetainedRefs(s, newEnd)
  {
    assert forall g: nat | s.start <= g < newEnd :: Within(g, s.start, newEnd);
  }

  /** The loader's words as its frames. */
  function LoaderView(base: nat, size: nat, words: seq<nat>, m: Memory): Paging
  {
    Paging(base / FRAME, (base + size) / FRAME, TakenFrames(words, 32, base / FRAME, (base + size) / FRAME), map[], m)
  }

  lemma WholeFrames(n: nat)
    requires n % 0x4_0000 == 0
    ensures n % FRAME == 0 && n / 0x4_0000 * 8 / 4 * 0x2_0000 == n
  {
    var q := n / 0x4_0000;
    DivModUnique(n, FRAME, 64 * q, 0);
    assert q * 8 / 4 == 2 * q;
  }

  /** `unmap` is the release of the tables of a present entry, or nothing. */
  lemma UnmapBranches(s: Paging, root: nat, v: nat)
    requires TablesIn(s.mem, s.refs.Keys, root) && v % PAGE == 0
    ensures var i, j, k := I4(v), I3(v), I2(v);
      UnmapPage(s, root, v) ==
        if HasPd(s.mem, root, i, j) && Present(Entry(s.mem, Pd(s.mem, root, i, j), k)) then
          ReleaseTables(s, Pdpt(s.mem, root, i), Pd(s.mem, root, i, j))
        else Some(Unmapped(s, false, []))
  {
    hide ReleaseTables;
  }

  /** The layout of the arrays, in frames, words and counters. */
  lemma LayoutInFrames(base: nat, size: nat)
    requires base % 0x4_0000 == 0 && size % 0x4_0000 == 0 && 0 < size && base + size < KERNEL_LOCATION
    ensures TrackingAddr(base, base + size) == 0x3F_F000 && base % FRAME == 0 && size % FRAME == 0
    ensures base / FRAME < (base + size) / FRAME <= 0x3FF
    ensures (base + size) / FRAME * FRAME == base + size
    ensures 0x3FF - base / FRAME < (TrackingDelta(base + size) / 8 + TrackingOld(base, base + size) / 8) * 64
    ensures 0x3FF - base / FRAME < RefcountSize(base) / 2 == (0x40_0000 - base) / 0x1000
    ensures TrackingDelta(base + size) / 8 + TrackingOld(base, base + size) / 8 == (0x40_0000 - base) / 0x4_0000
  {
    WholeFrames(base);
    WholeFrames(size);
    LayoutFits(base, base + size);
    var a, b := base / 0x4_0000, (base + size) / 0x4_0000;
    assert TrackingDelta(base + size) / 8 == 16 - b && TrackingOld(base, base + size) / 8 == b - a;
    assert base / FRAME == 64 * a;
  }

  /** `oldTracking32[oldAddr >> 17] & (1 << ((oldAddr >> 12) & 0x1F))`. */
  method OldMarked(words: array<nat>, base: nat, size: nat, oldAddr: nat, memory: Memory) returns (b: bool)
    requires base % FRAME == 0 && size % FRAME == 0 && oldAddr % FRAME == 0 && oldAddr < size
    requires size / FRAME <= words.Length * 32
    ensures b <==> (base + oldAddr) / FRAME in LoaderView(base, size, words[..], memory).taken
  {
    var n := oldAddr / FRAME;
    OldPosition(base, size, oldAddr, words.Length);
    TestBit(words[n / 32], n % 32);
    MaskLow(n, 5);
    assert Pow2(5) == 32;
    b := And(words[oldAddr / 0x2_0000], Pow2(And(oldAddr / 0x1000, 0x1F))) != 0;
  }

  lemma OldPosition(base: nat, size: nat, oldAddr: nat, words: nat)
    requires base % FRAME == 0 && size % FRAME == 0 && oldAddr % FRAME == 0 && oldAddr < size
    requires size / FRAME <= words * 32
    ensures var n := oldAddr / FRAME;
      && oldAddr / 0x2_0000 == n / 32 < words && oldAddr / 0x1000 == n
      && (base + oldAddr) / FRAME == base / FRAME + n
      && base / FRAME <= (base + oldAddr) / FRAME < (base + size) / FRAME
      && (base + oldAddr + FRAME) / FRAME == (base + oldAddr) / FRAME + 1
      && (base + oldAddr) / FRAME * FRAME == base + oldAddr
  {
  }

  /** `(trackingOld / 4) << 17`, the end of the copying loop. */
  function CopyLimit(base: nat, size: nat): (limit: nat)
    requires base % 0x4_0000 == 0 && size % 0x4_0000 == 0
    ensures limit == size
  {
    WholeFrames(size);
    TrackingOld(base, base + size) / 4 * 0x2_0000
  }

  lemma RetainedIs(s: Paging, newEnd: nat, taken: set<nat>, refs: map<nat, nat>, m: Memory)
    requires (forall g | g in s.taken :: s.start <= g < s.end) && (forall g | Within(g, s.start, newEnd) :: g in s.mem)
    requires taken == TakenBelow(s.taken, s.end) && refs == RefsBelow(s, newEnd, s.end)
    requires m == Wipe(s.mem, LastMarked(s, s.end) + 1, newEnd)
    ensures Paging(s.start, newEnd, taken, refs, m) == Retained(s, newEnd)
  {
    RetainAll(s, newEnd);
  }

  lemma OffsetOfFrame(base: nat, oldAddr: nat, f: nat)
    requires base % FRAME == 0 && base + oldAddr == f * FRAME
    ensures oldAddr % FRAME == 0 && (base + oldAddr) / FRAME == f && (base + oldAddr) % FRAME == 0
  {
    DivModUnique(base + oldAddr, FRAME, f, 0);
    var q := base / FRAME;
    assert oldAddr == FRAME * (f - q);
    if q <= f {
      DivModUnique(oldAddr, FRAME, f - q, 0);
    }
  }

  lemma LoaderStart(base: nat, size: nat, words: seq<nat>, memory: Memory)
    requires base % FRAME == 0 && size / FRAME <= |words| * 32
    ensures LoaderView(base, size, words, memory).start * FRAME == base
  {
  }

  lemma NoneMarked(words: seq<nat>, lo: nat, hi: nat)
    requires forall i: nat | i < |words| :: words[i] == 0
    ensures TakenFrames(words, 64, lo, hi) == {}
  {
    forall f: nat
      ensures !FrameMarked(words, 64, lo, f)
    {
      if lo <= f && (f - lo) / 64 < |words| {
        ZeroBit((f - lo) % 64);
      }
    }
  }

  /** The retained memory, seen from the loader's. */
  lemma LoaderRange(base: nat, size: nat, words: seq<nat>, memory: Memory)
    requires base % 0x4_0000 == 0 && size % 0x4_0000 == 0 && 0 < size && base + size < KERNEL_LOCATION
    ensures var s := LoaderView(base, size, words, memory);
      && s.end <= 0x3FF && s.mem == memory && (forall g | g in s.taken :: s.start <= g < s.end)
      && Retained(s, 0x3FF).taken == s.taken
  {
    LayoutInFrames(base, size);
  }

  lemma NextFrame(f: nat)
    ensures (f + 1) * FRAME == f * FRAME + 0x1000
  {
  }

  class PageManager {
    var start: nat
    var end: nat
    var tracking: array<Word>
    var refcount: array<nat>
    var mem: Memory

    /** What the two arrays say, kept beside them. */
    ghost var taken: set<nat>
    ghost var refs: map<nat, nat>

    ghost predicate Valid()
      reads this, tracking, refcount
    {
      && start % FRAME == 0 && end % FRAME == 0 && start <= end <= 0x8000_0000_0000_0000
      && end / FRAME - start / FRAME < tracking.Length * 64 && end / FRAME - start / FRAME < refcount.Length
      && tracking as object != refcount as object
      && (forall i | 0 <= i < refcount.Length :: refcount[i] < 0x1_0000)
      && (forall f | Within(f, start / FRAME, end / FRAME) :: f in mem)
      && taken == TakenFrames(tracking[..], 64, start / FRAME, end / FRAME)
      && refs == Counters(refcount[..], start / FRAME, end / FRAME)
    }

    ghost function View(): Paging
      reads this
    {
      Paging(start / FRAME, end / FRAME, taken, refs, mem)
    }

    /** The positions of the frame at `addr`, which may be the one just past the range. */
    lemma FrameOffset(addr: nat)
      requires Valid() && start <= addr <= end
      ensures (addr - start) / FRAME == addr / FRAME - start / FRAME && start / FRAME <= addr / FRAME
      ensures addr < end ==> addr / FRAME < end / FRAME
      ensures addr % FRAME == 0 ==> addr / FRAME * FRAME == addr
      ensures TrackingIndex(addr - start) == (addr / FRAME - start / FRAME) / 64 < tracking.Length
      ensures TrackingBit(addr - start) == Pow2((addr / FRAME - start / FRAME) % 64) < TWO_64
      ensures addr / FRAME - start / FRAME < tracking.Length * 64 && addr / FRAME - start / FRAME < refcount.Length
    {
      OffsetInFrames(addr, start);
      FramesInOrder(addr, end);
      WordInRange(addr / FRAME - start / FRAME, tracking.Length, 64);
      TrackingPosition(addr - start);
    }

    lemma ViewSpace()
      requires Valid()
      ensures Space(View())
    {
      assert forall f | start / FRAME <= f < end / FRAME :: Within(f, start / FRAME, end / FRAME);
    }

    // --- the tracking array -----------------------------------------------------------------------

    /** The range is taken to include its end, where no frame of it lies: the bit set there is nobody's. */
    method SetAlloc(addr: Word) returns (ok: bool)
      requires Valid()
      modifies this`taken, tracking
      ensures Valid() && (ok <==> start <= addr <= end && addr % FRAME == 0)
      ensures View() == if ok && addr < end then old(View()).(taken := old(View()).taken + {addr / FRAME}) else old(View())
    {
      Pow2Values();
      MaskLow(addr, 12);
      if !(start <= addr <= end) || And(addr, 0xFFF) != 0 {
        return false;
      }
      MarkFrame(addr);
      return true;
    }

    /** `tracking[idx] |= bit` for the frame at `addr`. */
    method MarkFrame(addr: Word)
      requires Valid() && start <= addr <= end && addr % FRAME == 0
      modifies this`taken, tracking
      ensures Valid()
      ensures View() == if addr < end then old(View()).(taken := old(View()).taken + {addr / FRAME}) else old(View())
    {
      FrameOffset(addr);
      var idx := TrackingIndex(addr - start);
      ghost var words := tracking[..];
      ghost var n := addr / FRAME - start / FRAME;
      tracking[idx] := Or64(tracking[idx], TrackingBit(addr - start));
      assert tracking[..] == Mark(words, 64, n);
      TakenAfterMark(words, 64, start / FRAME, end / FRAME, addr / FRAME);
      if addr < end {
        taken := taken + {addr / FRAME};
      }
    }

    method IsMarked(addr: Word) returns (b: bool)
      requires Valid() && start <= addr < end
      ensures b <==> addr / FRAME in taken
      ensures addr / FRAME < end / FRAME && (addr + FRAME) / FRAME == addr / FRAME + 1
      ensures addr % FRAME == 0 ==> addr / FRAME * FRAME == addr
    {
      FrameOffset(addr);
      var n := addr / FRAME - start / FRAME;
      TestBit(tracking[n / 64], n % 64);
      b := And(tracking[TrackingIndex(addr - start)], TrackingBit(addr - start)) != 0;
    }

    /** Marks the frame at `addr` and zeroes it. */
    method TakeFrame(addr: Word)
      requires Valid() && start <= addr < end && addr % FRAME == 0
      modifies this`mem, this`taken, tracking
      ensures Valid()
      ensures View() == old(View()).(taken := old(View()).taken + {addr / FRAME}, mem := old(mem)[addr / FRAME := ZeroTable()])
    {
      MarkFrame(addr);
      mem := mem[addr / FRAME := ZeroTable()];
    }

    /** The scan of `pm::alloc`: the first frame whose bit is clear. */
    method FindFree() returns (r: Option<Word>)
      requires Valid()
      ensures LowestFree(View(), start / FRAME) == if r.None? then None else Some(r.value / FRAME)
      ensures r.Some? ==> start <= r.value < end && r.value % FRAME == 0
    {
      var addr: nat := start;
      while addr < end
        invariant start <= addr <= end && addr % FRAME == 0
        invariant LowestFree(View(), start / FRAME) == LowestFree(View(), addr / FRAME)
      {
        var marked := IsMarked(addr);
        if !marked {
          return Some(addr);
        }
        addr := addr + 0x1000;
      }
      return None;
    }

    /** `pm::alloc`: the lowest free frame, marked and zeroed. */
    method Alloc() returns (r: Option<Word>)
      requires Valid()
      modifies this`mem, this`taken, tracking
      ensures Valid()
      ensures AllocFrame(old(View())) == if r.None? then None else Some((View(), r.value / FRAME))
      ensures if r.None? then View() == old(View()) else r.value % FRAME == 0
    {
      r := FindFree();
      if r.Some? {
        TakeFrame(r.value);
      }
    }

    /** `pm::free` of the frame an address lies in; false is the failed assertion that the frame is marked. */
    method Free(addr: Word) returns (ok: bool)
      requires Valid() && start <= addr < end
      modifies this`taken, tracking
      ensures Valid()
      ensures FreeFrame(old(View()), addr / FRAME) == if ok then Some(View()) else None
      ensures ok <==> addr / 0x1000 in old(taken)
      ensures View() == old(View()).(taken := if ok then old(taken) - {addr / 0x1000} else old(taken))
    {
      hide Counters, Within;
      var marked := IsMarked(addr);
      if !marked {
        return false;
      }
      FrameOffset(addr);
      var idx := TrackingIndex(addr - start);
      ghost var words := tracking[..];
      ghost var n := addr / FRAME - start / FRAME;
      tracking[idx] := And64(tracking[idx], Not64(TrackingBit(addr - start)));
      assert tracking[..] == Unmark(words, n);
      TakenAfterUnmark(words, start / FRAME, end / FRAME, addr / FRAME);
      taken := taken - {addr / FRAME};
      return true;
    }

    // --- reference counts -----------------------------------------------------------------------

    /** The assertions of `incRefs` and `decRefs` on an address. */
    method Countable(addr: Word) returns (ok: bool)
      requires Valid()
      ensures ok <==> start <= addr <= end && addr % FRAME == 0
    {
      Pow2Values();
      MaskLow(addr, 12);
      ok := start <= addr <= end && And(addr, 0xFFF) == 0;
    }

    /** `ok` false is one of its assertions. At the end of the range a counter goes up that is no frame's. */
    method IncRefs(addr: Word) returns (ok: bool, n: nat)
      requires Valid()
      modifies this`refs, refcount
      ensures Valid() && (ok <==> start <= addr <= end && addr % FRAME == 0)
      ensures ok && addr < end ==> addr / FRAME in old(refs) && n == refs[addr / FRAME]
      ensures View() == if ok && addr < end then PageModel.IncRefs(old(View()), addr / FRAME) else old(View())
      ensures ok && addr < end ==> n == (old(refs)[addr / 0x1000] + 1) % 0x1_0000
    {
      hide TakenFrames, Counters, Within, TrackingIndex, TrackingBit;
      ok := Countable(addr);
      if !ok {
        return false, 0;
      }
      FrameOffset(addr);
      var idx := (addr - start) / 0x1000;
      n := (refcount[idx] + 1) % 0x1_0000;
      SetCounter(addr / FRAME, idx, n);
    }

    /** Stores `n` as the counter of frame `f`. */
    method SetCounter(f: nat, idx: nat, n: nat)
      requires Valid() && start / FRAME <= f <= end / FRAME && idx == f - start / FRAME && n < 0x1_0000
      modifies this`refs, refcount
      ensures Valid()
      ensures f < end / FRAME ==> f in old(refs) && old(refs[f]) == old(refcount[idx]) && refs == old(refs)[f := n]
      ensures f == end / FRAME ==> refs == old(refs)
    {
      ghost var counts := refcount[..];
      refcount[idx] := n;
      assert refcount[..] == counts[idx := n];
      if f < end / FRAME {
        CountersAfter(counts, start / FRAME, end / FRAME, f, n);
        refs := refs[f := n];
      } else {
        CountersOutside(counts, start / FRAME, end / FRAME, f, n);
      }
    }

    /** The same for `decRefs`, which stops at zero. */
    method DecRefs(addr: Word) returns (ok: bool, n: nat)
      requires Valid()
      modifies this`refs, refcount
      ensures Valid() && (ok <==> start <= addr <= end && addr % FRAME == 0)
      ensures ok && addr < end ==> addr / FRAME in old(refs) && n == refs[addr / FRAME]
      ensures View() == if ok && addr < end then PageModel.DecRefs(old(View()), addr / FRAME) else old(View())
      ensures ok && addr < end ==> var was := old(refs)[addr / 0x1000]; n == if was == 0 then 0 else was - 1
    {
      hide TakenFrames, Counters, Within, TrackingIndex, TrackingBit;
      ok := Countable(addr);
      if !ok {
        return false, 0;
      }
      FrameOffset(addr);
      if addr < end {
        CountersAfter(refcount[..], start / FRAME, end / FRAME, addr / FRAME, 0);
      }
      var idx := (addr - start) / 0x1000;
      if refcount[idx] != 0 {
        n := refcount[idx] - 1;
        SetCounter(addr / FRAME, idx, n);
        return;
      }
      return true, 0;
    }

    /** `decRefs` of a table given by its frame. */
    method CountDown(f: nat) returns (n: nat)
      requires Valid() && f in refs
      modifies this`refs, refcount
      ensures Valid() && f in old(refs) && View() == PageModel.DecRefs(old(View()), f) && n == refs[f]
    {
      FrameAddress(f);
      var ok;
      ok, n := DecRefs(f * FRAME);
    }

    /** `free` of a table given by its frame. */
    method FreeTable(f: nat) returns (ok: bool)
      requires Valid() && f in refs
      modifies this`taken, tracking
      ensures Valid() && FreeFrame(old(View()), f) == if ok then Some(View()) else None
    {
      FrameAddress(f);
      ok := Free(f * FRAME);
    }

    // --- PML4 -----------------------------------------------------------------------------------

    /** The frame of the PD the first two indices lead to. */
    method FindPd(root: nat, pml4i: nat, pdpti: nat) returns (r: Option<nat>)
      requires TablesIn(mem, refs.Keys, root) && pml4i < 512 && pdpti < 512
      ensures r == if HasPd(mem, root, pml4i, pdpti) then Some(Pd(mem, root, pml4i, pdpti)) else None
    {
      var present := TestPresent(mem[root][pml4i]);
      if present {
        var pdpt := TableOf(mem[root][pml4i]);
        assert HasPdpt(mem, root, pml4i) && pdpt == Pdpt(mem, root, pml4i);
        present := TestPresent(mem[pdpt][pdpti]);
        if present {
          var pd := TableOf(mem[pdpt][pdpti]);
          return Some(pd);
        }
      }
      return None;
    }

    /** `Pml4::get` on the table at frame `root`. */
    method Get(root: nat, vaddr: Word) returns (r: Option<nat>)
      requires Valid() && TablesIn(mem, refs.Keys, root) && vaddr < VIRTUAL_END
      ensures r == PageModel.Get(mem, root, vaddr)
    {
      var pml4i, pdpti, pdi := Indices(vaddr);
      var pd := FindPd(root, pml4i, pdpti);
      if pd.Some? {
        var pde := mem[pd.value][pdi];
        var present := TestPresent(pde);
        if present {
          var addr := PageAddress(pde, vaddr);
          return Some(addr);
        }
      }
      return None;
    }

    /** Writes entry `i` of the table in frame `f`. */
    method Store(f: nat, i: nat, e: Word)
      requires Valid() && f in mem && i < 512
      modifies this`mem
      ensures Valid() && View() == old(View()).(mem := Write(old(mem), f, i, e))
    {
      mem := mem[f := mem[f][i := e]];
    }

    /** `Pml4::map` on the table at frame `root`; false is one of its assertions or panics. */
    method Map(root: nat, vaddr: Word, paddr: Word, flags: Word) returns (ok: bool)
      requires Valid() && InRange(View(), root) && vaddr < VIRTUAL_END
      modifies this`mem, this`taken, this`refs, tracking, refcount
      ensures Valid()
      ensures MapPage(old(View()), root, vaddr, paddr, flags) == if ok then Some(View()) else None
      ensures ok && Inv(old(View()), root) ==> EntryBits(EntryAt(mem, root, vaddr), paddr, flags)
    {
      ghost var s := View();
      ok := MapAt(root, vaddr, paddr, flags);
      if ok && Inv(s, root) {
        hide Inv, MapPage, EntryBits, InRange;
        MapWritesEntry(s, root, vaddr, paddr, flags);
      }
    }

    method MapAt(root: nat, vaddr: Word, paddr: Word, flags: Word) returns (ok: bool)
      requires Valid() && InRange(View(), root) && vaddr < VIRTUAL_END
      modifies this`mem, this`taken, this`refs, tracking, refcount
      ensures Valid()
      ensures MapPage(old(View()), root, vaddr, paddr, flags) == if ok then Some(View()) else None
    {
      var vok := PageAligned(vaddr);
      var pok := PageAligned(paddr);
      if !vok || !pok {
        return false;
      }
      var pml4i, pdpti, pdi := Indices(vaddr);
      var e := Or64(Or64(Or64(paddr, flags), 0x1), 0x80);
      var present := TestPresent(mem[root][pml4i]);
      ViewSpace();
      if present {
        var pdpt := TableOf(mem[root][pml4i]);
        assert HasPdpt(mem, root, pml4i) && pdpt == Pdpt(mem, root, pml4i);
        assert Present(Entry(mem, pdpt, pdpti)) ==> HasPd(mem, root, pml4i, pdpti);
        ok := MapUnderPdpt(pdpt, pdpti, pdi, e);
      } else {
        ok := MapNewTables(root, pml4i, pdpti, pdi, e);
      }
    }

    method MapUnderPdpt(pdpt: nat, pdpti: nat, pdi: nat, e: Word) returns (ok: bool)
      requires Valid() && Space(View()) && pdpt in refs && pdpti < 512 && pdi < 512
      requires var w := Entry(mem, pdpt, pdpti); Present(w) ==> Target(w) in refs
      modifies this`mem, this`taken, this`refs, tracking, refcount
      ensures Valid()
      ensures MapInPdpt(old(View()), pdpt, pdpti, pdi, e) == if ok then Some(View()) else None
    {
      ghost var s0 := View();
      var present := TestPresent(mem[pdpt][pdpti]);
      if present {
        var pd := TableOf(mem[pdpt][pdpti]);
        ok := MapUnderPd(pd, pdi, e);
      } else {
        var r := Alloc();
        if r.None? {
          return false;
        }
        var pd := r.value / FRAME;
        NewPdResult(s0, View(), pdpt, pdpti, pd, pdi, e);
        FillPd(pdpt, pdpti, pd, pdi, e);
        CountBoth(pd, pdpt);
        return true;
      }
    }

    /** The entry of a PD that is there; false is the panic on a present entry. */
    method MapUnderPd(pd: nat, pdi: nat, e: Word) returns (ok: bool)
      requires Valid() && pd in refs && pd in mem && pdi < 512
      modifies this`mem, this`refs, refcount
      ensures Valid() && (ok <==> !Present(Entry(old(mem), pd, pdi)))
      ensures ok ==> View() == PageModel.IncRefs(old(View()).(mem := Write(old(mem), pd, pdi, e)), pd)
    {
      var present := TestPresent(mem[pd][pdi]);
      if present {
        return false;
      }
      Store(pd, pdi, e);
      CountUp(pd);
      return true;
    }

    /** The page entry of a new PD, and the entry that links it into its PDPT. */
    method FillPd(pdpt: nat, pdpti: nat, pd: nat, pdi: nat, e: Word)
      requires Valid() && pd in mem && pdpt in mem && pdpti < 512 && pdi < 512 && pd * FRAME + 3 < TWO_64
      modifies this`mem
      ensures Valid() && View() == old(View()).(mem := Write(Write(old(mem), pd, pdi, e), pdpt, pdpti, TableEntry(pd)))
    {
      Store(pd, pdi, e);
      var pdpte := MakeTableEntry(pd);
      Store(pdpt, pdpti, pdpte);
    }

    method CountBoth(pd: nat, pdpt: nat)
      requires Valid() && pd in refs && pdpt in refs
      modifies this`refs, refcount
      ensures Valid() && pd in old(refs) && pdpt in old(refs)
      ensures View() == PageModel.IncRefs(PageModel.IncRefs(old(View()), pd), pdpt)
    {
      CountUp(pd);
      CountUp(pdpt);
    }

    method MapNewTables(root: nat, pml4i: nat, pdpti: nat, pdi: nat, e: Word) returns (ok: bool)
      requires Valid() && Space(View()) && root in mem && pml4i < 512 && pdpti < 512 && pdi < 512
      modifies this`mem, this`taken, this`refs, tracking, refcount
      ensures Valid()
      ensures MapFresh(old(View()), root, pml4i, pdpti, pdi, e) == if ok then Some(View()) else None
    {
      ghost var s0 := View();
      var r1 := Alloc();
      if r1.None? {
        return false;
      }
      ghost var s1 := View();
      var r2 := Alloc();
      if r2.None? {
        return false;
      }
      var pdpt, pd := r1.value / FRAME, r2.value / FRAME;
      NewTablesResult(s0, s1, View(), root, pml4i, pdpt, pdpti, pd, pdi, e);
      FillTables(root, pml4i, pdpt, pdpti, pd, pdi, e);
      CountBoth(pd, pdpt);
      return true;
    }

    /** The page entry of a new PD, and the entries that link it and its new PDPT. */
    method FillTables(root: nat, pml4i: nat, pdpt: nat, pdpti: nat, pd: nat, pdi: nat, e: Word)
      requires Valid() && root in mem && pd in mem && pdpt in mem && pml4i < 512 && pdpti < 512 && pdi < 512
      requires pd * FRAME + 3 < TWO_64 && pdpt * FRAME + 3 < TWO_64
      modifies this`mem
      ensures Valid()
      ensures View() == old(View()).(mem :=
        Write(Write(Write(old(mem), pd, pdi, e), pdpt, pdpti, TableEntry(pd)), root, pml4i, TableEntry(pdpt)))
    {
      FillPd(pdpt, pdpti, pd, pdi, e);
      var pml4e := MakeTableEntry(pdpt);
      Store(root, pml4i, pml4e);
    }

    /** `incRefs` of a table given by its frame. */
    method CountUp(f: nat)
      requires Valid() && f in refs
      modifies this`refs, refcount
      ensures Valid() && f in old(refs) && View() == PageModel.IncRefs(old(View()), f)
    {
      FrameAddress(f);
      var _, _ := IncRefs(f * FRAME);
    }

    lemma FrameAddress(f: nat)
      requires Valid() && f in refs
      ensures start <= f * FRAME < end && f * FRAME % FRAME == 0 && f * FRAME / FRAME == f
    {
    }

    /** `Pml4::unmap`. `ok` false is a failed assertion; `found` is `result(0)`. */
    method Unmap(root: nat, vaddr: Word) returns (ok: bool, found: bool)
      requires Valid() && TablesIn(mem, refs.Keys, root) && vaddr < VIRTUAL_END
      modifies this`taken, this`refs, tracking, refcount
      ensures Valid()
      ensures ok <==> UnmapPage(old(View()), root, vaddr).Some?
      ensures ok ==> var u := UnmapPage(old(View()), root, vaddr).value; View() == u.s && found == u.found
    {
      var aligned := PageAligned(vaddr);
      if !aligned {
        return false, false;
      }
      var pml4i, pdpti, pdi := Indices(vaddr);
      UnmapBranches(View(), root, vaddr);
      hide UnmapPage, ReleaseTables, I4, I3, I2;
      var pd := FindPd(root, pml4i, pdpti);
      found := false;
      if pd.Some? {
        found := TestPresent(mem[pd.value][pdi]);
      }
      if !found {
        return true, false;
      }
      ok := Release(Pdpt(mem, root, pml4i), pd.value);
    }

    /** One reference to the PD goes, and one to the PDPT if that was the PD's last. */
    method Release(pdpt: nat, pd: nat) returns (ok: bool)
      requires Valid() && pdpt in refs && pd in refs
      modifies this`taken, this`refs, tracking, refcount
      ensures Valid()
      ensures ok <==> ReleaseTables(old(View()), pdpt, pd).Some?
      ensures ok ==> var u := ReleaseTables(old(View()), pdpt, pd).value; View() == u.s && u.found
    {
      var n := CountDown(pd);
      if n == 0 {
        ok := FreeTable(pd);
        if !ok {
          return false;
        }
        n := CountDown(pdpt);
        if n == 0 {
          ok := FreeTable(pdpt);
          return ok;
        }
      }
      return true;
    }

    // --- retainLoaderPaging ---------------------------------------------------------------------

    /** The `memset`s of step 2: zeroed arrays for `words` words of bits and `counters` counters. */
    method PrepareTracking(base: nat, newEnd: nat, words: nat, counters: nat, memory: Memory)
      requires base % FRAME == 0 && newEnd % FRAME == 0 && base <= newEnd <= KERNEL_LOCATION
      requires newEnd / FRAME - base / FRAME < words * 64 && newEnd / FRAME - base / FRAME < counters
      requires forall f | Within(f, base / FRAME, newEnd / FRAME) :: f in memory
      modifies this
      ensures Valid() && fresh(tracking) && fresh(refcount) && start == base && end == newEnd && mem == memory
      ensures tracking.Length == words && refcount.Length == counters
      ensures taken == {} && (forall f | f in refs :: refs[f] == 0)
      ensures refs.Keys == Counters(refcount[..], base / FRAME, newEnd / FRAME).Keys
    {
      start, end, mem := base, newEnd, memory;
      tracking := new Word[words](_ => 0);
      refcount := new nat[counters](_ => 0);
      taken := {};
      refs := Counters(refcount[..], base / FRAME, newEnd / FRAME);
      NoneMarked(tracking[..], base / FRAME, newEnd / FRAME);
    }

    /** Step 3 for one retained frame: a reference for each present entry. */
    method CountEntries(f: nat)
      requires Valid() && f in refs && f in mem && refs[f] == 0
      modifies this`refs, refcount
      ensures Valid() && refs == old(refs)[f := Count(mem[f])]
    {
      hide TakenFrames, Counters, Within;
      ghost var refs0 := refs;
      ghost var t := mem[f];
      AllSlots(t);
      var i: nat := 0;
      while i < 512
        invariant i <= 512 && Valid() && f in refs && refs[f] == |FirstSlots(t, i)|
        invariant refs == refs0[f := refs[f]]
      {
        NextSlot(t, i);
        CountIfPresent(f, i);
        i := i + 1;
      }
    }

    /** `if (entry & 1) incRefs(s)` for entry `i`. */
    method CountIfPresent(f: nat, i: nat)
      requires Valid() && f in refs && f in mem && i < 512 && refs[f] <= 512
      modifies this`refs, refcount
      ensures Valid() && refs == old(refs)[f := old(refs[f]) + if Present(mem[f][i]) then 1 else 0]
    {
      hide And, Pow2;
      var present := TestPresent(mem[f][i]);
      if present {
        CountUp(f);
      }
    }

    /** The retained frame at `addr`: marked, and its entries counted. */
    method RetainFrame(addr: Word)
      requires Valid() && start <= addr < end && addr % FRAME == 0 && addr / FRAME in refs && refs[addr / FRAME] == 0
      requires addr / FRAME in mem
      modifies this`taken, this`refs, tracking, refcount
      ensures Valid() && taken == old(taken) + {addr / FRAME}
      ensures refs == old(refs)[addr / FRAME := Count(mem[addr / FRAME])]
    {
      var ok := SetAlloc(addr);
      assert ok;
      CountEntries(addr / FRAME);
    }

    lemma NoneRetained(s: Paging)
      requires Valid() && s.start == start / FRAME && s.mem == mem && (forall f | f in refs :: refs[f] == 0)
      requires (forall g | g in s.taken :: s.start <= g)
      ensures refs == RefsBelow(s, end / FRAME, s.start)
    {
      RetainNone(s, end / FRAME);
      assert forall g: nat | s.start <= g < end / FRAME :: Within(g, s.start, end / FRAME);
    }

    /** The marks and counts of the frames below `f` are copied, and `highest` is the last marked one. */
    ghost predicate CopiedTo(s: Paging, f: nat, highest: nat)
      reads this
    {
      taken == TakenBelow(s.taken, f) && refs == RefsBelow(s, end / FRAME, f) && highest == LastMarked(s, f) * FRAME
    }

    /** Frame `f` of step 3; the highest retained address so far is kept. */
    method RetainIfMarked(ghost s: Paging, addr: Word, marked: bool, highest: nat, ghost f: nat) returns (r: nat)
      requires Valid() && start <= addr < end && addr % FRAME == 0 && addr == f * FRAME && addr / FRAME == f
      requires s.start == start / FRAME && s.start <= f < s.end <= end / FRAME && s.mem == mem
      requires f in mem && (marked <==> f in s.taken) && CopiedTo(s, f, highest)
      modifies this`taken, this`refs, tracking, refcount
      ensures Valid() && CopiedTo(s, f + 1, r)
    {
      RetainOne(s, end / FRAME, f);
      r := highest;
      if marked {
        RetainFrame(addr);
        if addr > r {
          r := addr;
        }
      }
    }

    /** One round of step 3, at the loader's offset `oldAddr`, which is frame `f`. */
    method CopyOne(ghost s: Paging, base: nat, size: nat, oldTracking: array<nat>, memory: Memory, oldAddr: nat, highest: nat,
                   ghost f: nat, ghost words: seq<nat>)
      returns (r: nat)
      requires Valid() && base == start && base % FRAME == 0 && size % FRAME == 0 && base + size <= end
      requires size / FRAME <= oldTracking.Length * 32 && oldTracking != refcount && oldTracking as object != tracking as object
      requires oldTracking[..] == words && s == LoaderView(base, size, words, memory) && mem == memory
      requires oldAddr < size && base + oldAddr == f * FRAME && CopiedTo(s, f, highest)
      modifies this`taken, this`refs, tracking, refcount
      ensures Valid() && oldTracking[..] == words && oldAddr + 0x1000 <= size && CopiedTo(s, f + 1, r)
    {
      OffsetOfFrame(base, oldAddr, f);
      OldPosition(base, size, oldAddr, oldTracking.Length);
      assert Within(f, start / FRAME, end / FRAME);
      var marked := OldMarked(oldTracking, base, size, oldAddr, memory);
      r := RetainIfMarked(s, base + oldAddr, marked, highest, f);
    }

    /** Step 3: the copy of the loader's marks. The result is the highest retained address, or 0. */
    method CopyMarks(ghost s: Paging, base: nat, size: nat, oldTracking: array<nat>, memory: Memory) returns (maxStruct: nat)
      requires Valid() && base == start && base % 0x4_0000 == 0 && size % 0x4_0000 == 0 && base + size <= end
      requires size / FRAME <= oldTracking.Length * 32 && oldTracking != refcount && oldTracking as object != tracking as object
      requires s == LoaderView(base, size, oldTracking[..], memory) && mem == memory
      requires CopiedTo(s, s.start, 0)
      modifies this`taken, this`refs, tracking, refcount
      ensures Valid() && CopiedTo(s, s.end, maxStruct)
    {
      hide TakenBelow, RefsBelow, LastMarked;
      WholeFrames(base);
      WholeFrames(size);
      var limit := CopyLimit(base, size);
      ghost var f;
      maxStruct, f := CopyLoop(s, base, limit, oldTracking, memory);
      OffsetOfFrame(base, size, f);
    }

    method CopyLoop(ghost s: Paging, base: nat, limit: nat, oldTracking: array<nat>, memory: Memory)
      returns (maxStruct: nat, ghost f: nat)
      requires Valid() && base == start && base % FRAME == 0 && limit % FRAME == 0 && base + limit <= end
      requires limit / FRAME <= oldTracking.Length * 32 && oldTracking != refcount && oldTracking as object != tracking as object
      requires s == LoaderView(base, limit, oldTracking[..], memory) && mem == memory
      requires CopiedTo(s, s.start, 0)
      modifies this`taken, this`refs, tracking, refcount
      ensures Valid() && base + limit == f * FRAME && CopiedTo(s, f, maxStruct)
    {
      hide *;
      LoaderStart(base, limit, oldTracking[..], memory);
      ghost var words := oldTracking[..];
      maxStruct, f := 0, s.start;
      var oldAddr: nat := 0;
      while oldAddr < limit
        invariant oldAddr <= limit && base + oldAddr == f * FRAME && Valid() && oldTracking[..] == words
        invariant CopiedTo(s, f, maxStruct)
      {
        NextFrame(f);
        maxStruct := CopyOne(s, base, limit, oldTracking, memory, oldAddr, maxStruct, f, words);
        oldAddr := oldAddr + 0x1000;
        f := f + 1;
      }
    }

    /** Step 6: the frames above the last retained one are zeroed. */
    method WipeAbove(maxStruct: nat)
      requires Valid()
      modifies this`mem
      ensures Valid() && mem.Keys == old(mem).Keys
      ensures forall f | f in mem && maxStruct / 0x1000 <= f < end / 0x1000 :: forall i: nat | i < 512 :: mem[f][i] == 0
      ensures forall f | f in mem && !(maxStruct / 0x1000 <= f < end / 0x1000) :: mem[f] == old(mem)[f]
    {
      var last := end;
      mem := map f | f in mem :: if maxStruct / 0x1000 <= f < last / 0x1000 then seq(512, _ => 0) else mem[f];
    }

    /**
      The kernel's first step: zeroed arrays above the frames, the loader's marks copied and
      its entries counted, and the frames above the last marked one wiped. The range gets its
      final end before the copy; the frames copied lie below the loader's end.
     */
    method RetainLoaderPaging(base: nat, size: nat, oldTracking: array<nat>, memory: Memory)
      requires base % 0x4_0000 == 0 && size % 0x4_0000 == 0 && 0 < size && base + size < KERNEL_LOCATION
      requires size / FRAME <= oldTracking.Length * 32
      requires forall f | Within(f, base / FRAME, 0x3FF) :: f in memory
      modifies this
      ensures Valid() && start == base && end == TrackingAddr(base, base + size) == 0x3F_F000
      ensures View() == Retained(LoaderView(base, size, old(oldTracking[..]), memory), 0x3FF)
      ensures tracking.Length == (0x40_0000 - base) / 0x4_0000 && refcount.Length == (0x40_0000 - base) / 0x1000
      ensures mem.Keys == memory.Keys && forall f | f in memory ::
        if 0 < f < 0x3FF && (forall g | g in taken :: g < f) then forall i: nat | i < 512 :: mem[f][i] == 0
        else mem[f] == memory[f]
    {
      ghost var s := LoaderView(base, size, oldTracking[..], memory);
      RetainMarked(base, size, oldTracking, memory);
      LoaderRange(base, size, oldTracking[..], memory);
      assert mem == Retained(s, 0x3FF).mem && taken == s.taken && mem.Keys == memory.Keys;
      hide *;
      forall f | f in memory
        ensures f in mem && if 0 < f < 0x3FF && (forall g | g in taken :: g < f) then forall i: nat | i < 512 :: mem[f][i] == 0
                            else mem[f] == memory[f]
      {
        RetainedWipes(s, 0x3FF, f);
      }
    }

    method RetainMarked(base: nat, size: nat, oldTracking: array<nat>, memory: Memory)
      requires base % 0x4_0000 == 0 && size % 0x4_0000 == 0 && 0 < size && base + size < KERNEL_LOCATION
      requires size / FRAME <= oldTracking.Length * 32
      requires forall f | Within(f, base / FRAME, 0x3FF) :: f in memory
      modifies this
      ensures Valid() && start == base && end == TrackingAddr(base, base + size) == 0x3F_F000
      ensures oldTracking[..] == old(oldTracking[..]) && View() == Retained(LoaderView(base, size, oldTracking[..], memory), 0x3FF)
      ensures tracking.Length == (0x40_0000 - base) / 0x4_0000 && refcount.Length == (0x40_0000 - base) / 0x1000
    {
      hide TrackingDelta, TrackingOld, TrackingAddr, RefcountSize, TakenFrames, Counters, LastMarked, Retained, TakenBelow, RefsBelow;
      ghost var s := LoaderView(base, size, oldTracking[..], memory);
      var trackingDelta, trackingOld := TrackingDelta(base + size), TrackingOld(base, base + size);
      var trackingAddr := TrackingAddr(base, base + size);
      var refcountSize := RefcountSize(base);
      LayoutInFrames(base, size);
      LoaderRange(base, size, oldTracking[..], memory);
      PrepareTracking(base, trackingAddr, trackingDelta / 8 + trackingOld / 8, refcountSize / 2, memory);
      assert oldTracking[..] == old(oldTracking[..]);
      NoneRetained(s);
      RetainNone(s, end / FRAME);
      var maxStruct := CopyMarks(s, base, size, oldTracking, memory);
      FinishRetaining(s, maxStruct, trackingAddr);
    }

    /** Steps 4 and 6, with the marks and counts copied. */
    method FinishRetaining(ghost s: Paging, maxStruct: nat, trackingAddr: nat)
      requires Valid() && CopiedTo(s, s.end, maxStruct) && s.start == start / FRAME && s.mem == mem
      requires s.end <= end / FRAME && (forall g | g in s.taken :: s.start <= g < s.end)
      requires end == trackingAddr && s.end * FRAME <= trackingAddr && s.start < s.end
      modifies this`mem
      ensures Valid() && View() == Retained(s, end / FRAME)
    {
      FrameAfter(LastMarked(s, s.end));
      ghost var m := mem;
      if maxStruct != trackingAddr {
        WipeAbove(maxStruct + 0x1000);
        IsWiped(m, mem, LastMarked(s, s.end) + 1, end / FRAME);
      }
      RetainedIs(s, end / FRAME, taken, refs, mem);
    }
  }

  lemma IsWiped(m: Memory, m': Memory, lo: nat, hi: nat)
    requires m'.Keys == m.Keys
    requires forall f | f in m && lo <= f < hi :: forall i: nat | i < 512 :: m'[f][i] == 0
    requires forall f | f in m && !(lo <= f < hi) :: m'[f] == m[f]
    ensures m' == Wipe(m, lo, hi)
  {
    forall f | f in m
      ensures m'[f] == Wipe(m, lo, hi)[f]
    {
      if lo <= f < hi {
        assert m'[f] == ZeroTable();
      }
    }
  }

  lemma FrameAfter(f: nat)
    ensures (f * FRAME + 0x1000) / FRAME == f + 1
  {
  }
}
