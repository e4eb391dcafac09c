/** The loader's paging code with its module state: the 32-bit tracking words and the frames. */
module LoaderManager {
  import opened Words
  import opened Wrappers
  import opened Bitmaps
  import opened PageModel
  import opened PageTranslation
  import opened LoaderPages
  import opened PageEntries
  import Manager = PageManager

  const REGION_START: nat := 0x10_0000
  const REGION_END: nat := 0x20_0000
  const NO_FRAME: Word := 0xFFFF_FFFF

  class LoaderManager {
    var tracker: array<nat>
    var mem: Memory

    /** The frames the words mark, kept beside them. */
    ghost var taken: set<nat>

    ghost predicate Valid()
      reads this, tracker
    {
      && tracker.Length == 8
      && (forall i | 0 <= i < 8 :: tracker[i] < 0x1_0000_0000)
      && (forall f | Manager.Within(f, 0x100, 0x200) :: f in mem)
      && taken == TakenFrames(tracker[..], 32, 0x100, 0x200)
    }

    /** The loader counts no references. */
    ghost function View(): Paging
      reads this
    {
      Paging(0x100, 0x200, taken, map[], mem)
    }

    /** No frame is marked yet. */
    constructor (memory: Memory)
      requires forall f | Manager.Within(f, 0x100, 0x200) :: f in memory
      ensures Valid() && fresh(tracker) && View() == Paging(0x100, 0x200, {}, map[], memory)
    {
      tracker := new nat[8](_ => 0);
      mem, taken := memory, {};
      new;
      assert tracker[..] == seq(8, _ => 0);
      NoneTaken(tracker[..]);
    }

    static lemma NoneTaken(words: seq<nat>)
      requires words == seq(8, _ => 0)
      ensures TakenFrames(words, 32, 0x100, 0x200) == {}
    {
      forall f: nat
        ensures !FrameMarked(words, 32, 0x100, f)
      {
        if 0x100 <= f && (f - 0x100) / 32 < 8 {
          ZeroBit((f - 0x100) % 32);
        }
      }
    }

    static predicate InRegion(addr: nat)
    {
      REGION_START <= addr < REGION_END
    }

    static function Index(addr: nat): nat
      requires InRegion(addr)
    {
      (addr - REGION_START) / 0x2_0000
    }

    static function BitOf(addr: nat): nat
      requires InRegion(addr)
    {
      Pow2(And((addr - REGION_START) / 0x1000, 0x1F))
    }

    static lemma Position(addr: nat)
      requires InRegion(addr)
      ensures var n := addr / FRAME - 0x100;
        0 <= n < 256 && Index(addr) == n / 32 < 8 && BitOf(addr) == Pow2(n % 32) < 0x1_0000_0000
      ensures addr % FRAME == 0 ==> addr / FRAME * FRAME == addr
    {
      var n := addr / FRAME - 0x100;
      assert (addr - REGION_START) / 0x1000 == n;
      Pow2Values();
      MaskLow(n, 5);
      Pow2Monotone(n % 32, 32);
    }

    /** `isFree`. `ok` false is one of its assertions, which let the region's end through: its word is outside the array. */
    method IsFree(addr: nat) returns (ok: bool, free: bool)
      requires Valid() && addr != REGION_END
      ensures ok <==> 0x10_0000 <= addr < 0x20_0000 && addr % 0x1000 == 0
      ensures ok ==> (free <==> addr / 0x1000 !in taken)
    {
      hide And, Pow2;
      Pow2Values();
      MaskLow(addr, 12);
      if !(REGION_START <= addr <= REGION_END) || And(addr, 0xFFF) != 0 {
        return false, false;
      }
      Position(addr);
      var n := addr / FRAME - 0x100;
      TestBit(tracker[n / 32], n % 32);
      return true, And(tracker[Index(addr)], BitOf(addr)) == 0;
    }

    /** `setAlloc` of the frame an address lies in. */
    method SetAlloc(addr: nat)
      requires Valid() && InRegion(addr)
      modifies this`taken, tracker
      ensures Valid() && taken == old(taken) + {addr / FRAME}
    {
      Position(addr);
      ghost var words := tracker[..];
      var n := addr / FRAME - 0x100;
      Pow2Values();
      OrBound(tracker[n / 32], BitOf(addr), 32);
      tracker[Index(addr)] := Or(tracker[Index(addr)], BitOf(addr));
      assert tracker[..] == Mark(words, 32, n);
      TakenAfterMark(words, 32, 0x100, 0x200, addr / FRAME);
      taken := taken + {addr / FRAME};
    }

    method FindFree() returns (r: nat)
      requires Valid()
      ensures LowestFree(View(), 0x100) == if r == NO_FRAME then None else Some(r / FRAME)
      ensures r != NO_FRAME ==> InRegion(r) && r % FRAME == 0
    {
      var addr := REGION_START;
      while addr < REGION_END
        invariant REGION_START <= addr <= REGION_END && addr % FRAME == 0
        invariant LowestFree(View(), 0x100) == LowestFree(View(), addr / FRAME)
      {
        var ok, free := IsFree(addr);
        assert ok;
        if free {
          return addr;
        }
        NextFrame(addr);
        addr := addr + 0x1000;
      }
      return NO_FRAME;
    }

    static lemma NextFrame(addr: nat)
      ensures (addr + FRAME) / FRAME == addr / FRAME + 1 && (addr + FRAME) % FRAME == addr % FRAME
    {
    }

    /** `pm::alloc`: the lowest free frame, marked and zeroed, or 0xFFFFFFFF. */
    method Alloc() returns (r: nat)
      requires Valid()
      modifies this`mem, this`taken, tracker
      ensures Valid()
      ensures AllocFrame(old(View())) == if r == 0xFFFF_FFFF then None else Some((View(), r / FRAME))
      ensures if r == 0xFFFF_FFFF then View() == old(View()) else 0x10_0000 <= r < 0x20_0000 && r / FRAME * FRAME == r
    {
      r := FindFree();
      if r != NO_FRAME {
        Position(r);
        SetAlloc(r);
        mem := mem[r / FRAME := ZeroTable()];
      }
    }

    /** The constructor of the PML4 placed at frame `root`. */
    method ConstructPml4(root: nat)
      requires Valid() && root in mem
      modifies this`mem
      ensures Valid() && View() == Construct(old(View()), root)
    {
      mem := mem[root := ZeroTable()];
    }

    /** What the loader does before its first `map`: it marks the frame at 1 MiB and constructs the PML4 there. */
    method PlacePml4()
      requires Valid()
      modifies this`mem, this`taken, tracker
      ensures Valid() && View() == Construct(old(View()).(taken := old(taken) + {0x100}), 0x100)
      ensures LoaderOk(View(), 0x100) && NoEmptyTable(mem, 0x100) && Translation(mem, 0x100) == map[]
    {
      SetAlloc(0x10_0000);
      MemoryThere();
      ConstructedTree(View(), 0x100);
      ConstructPml4(0x100);
    }

    lemma MemoryThere()
      requires Valid()
      ensures forall f: nat | 0x100 <= f < 0x200 :: f in mem
      ensures forall f | f in taken :: 0x100 <= f < 0x200
    {
      assert forall f: nat | 0x100 <= f < 0x200 :: Manager.Within(f, 0x100, 0x200);
    }

    /** `entry & 0xFFFFF000`, as a frame number. */
    method TableOf(e: Word) returns (frame: nat)
      requires e < 0x1_0000_0000
      ensures frame == Target(e)
    {
      Pow2Values();
      MaskHigh(e, 32, 12);
      frame := And(e, 0xFFFF_F000) / FRAME;
    }

    method Store(f: nat, i: nat, e: Word)
      requires Valid() && f in mem && i < 512
      modifies this`mem
      ensures Valid() && View() == old(View()).(mem := Write(old(mem), f, i, e))
    {
      mem := mem[f := mem[f][i := e]];
    }

    method MakeEntry(frame: nat) returns (e: Word)
      requires frame < FRAMES_32
      ensures e == LoaderEntry(frame)
    {
      LoaderEntryIsOr(frame);
      e := Or(frame * FRAME, 1);
    }

    /** `Pml4::map` on the table at frame `root`; false is the failed assertion on an allocation. */
    method Map(root: nat, vaddr: Word, paddr: Word, flags: Word) returns (ok: bool)
      requires Valid() && LoaderOk(View(), root) && vaddr < VIRTUAL_END
      modifies this`mem, this`taken, tracker
      ensures Valid()
      ensures LoaderMap(old(View()), root, vaddr, paddr, flags) == if ok then Some(View()) else None
      ensures ok ==> EntryBits(EntryAt(mem, root, vaddr), paddr, flags)
    {
      ghost var s := View();
      ok := MapAt(root, vaddr, paddr, flags);
      if ok {
        hide EntryBits, LoaderOk, LoaderMap;
        LoaderMapWritesEntry(s, root, vaddr, paddr, flags);
      }
    }

    method MapAt(root: nat, vaddr: Word, paddr: Word, flags: Word) returns (ok: bool)
      requires Valid() && LoaderOk(View(), root) && vaddr < VIRTUAL_END
      modifies this`mem, this`taken, tracker
      ensures Valid()
      ensures LoaderMap(old(View()), root, vaddr, paddr, flags) == if ok then Some(View()) else None
    {
      var pml4i, pdpi, pdi := Manager.Indices(vaddr);
      var e := Or64(paddr, Or64(flags, 0x81));
      var present := Manager.TestPresent(mem[root][pml4i]);
      if present {
        assert HasPdpt(mem, root, pml4i);
        BelowFourGiB(mem[root][pml4i]);
        var pdp := TableOf(mem[root][pml4i]);
        present := Manager.TestPresent(mem[pdp][pdpi]);
        if present {
          assert HasPd(mem, root, pml4i, pdpi);
          BelowFourGiB(mem[pdp][pdpi]);
          var pd := TableOf(mem[pdp][pdpi]);
          Store(pd, pdi, e);
          return true;
        }
        ok := MapNewPd(pdp, pdpi, pdi, e);
      } else {
        ok := MapNewTables(root, pml4i, pdpi, pdi, e);
      }
    }

    static lemma BelowFourGiB(e: Word)
      requires Target(e) < FRAMES_32
      ensures e < 0x1_0000_0000
    {
    }

    method MapNewPd(pdp: nat, pdpi: nat, pdi: nat, e: Word) returns (ok: bool)
      requires Valid() && pdp in mem && pdpi < 512 && pdi < 512
      modifies this`mem, this`taken, tracker
      ensures Valid()
      ensures ok <==> AllocFrame(old(View())).Some?
      ensures ok ==> var (s1, pd) := AllocFrame(old(View())).value;
        pd < FRAMES_32 && View() == s1.(mem := Write(Write(s1.mem, pd, pdi, e), pdp, pdpi, LoaderEntry(pd)))
    {
      var addr := Alloc();
      if addr == NO_FRAME {
        return false;
      }
      var pd := addr / FRAME;
      Store(pd, pdi, e);
      var w := MakeEntry(pd);
      Store(pdp, pdpi, w);
      return true;
    }

    /** The `memset`s of `map` on its new tables, which `alloc` has zeroed already. */
    method ZeroAgain(pdp: nat, pd: nat)
      requires Valid() && pdp in mem && pd in mem && mem[pdp] == ZeroTable() && mem[pd] == ZeroTable()
      modifies this`mem
      ensures Valid() && View() == old(View())
    {
      mem := mem[pdp := ZeroTable()];
      mem := mem[pd := ZeroTable()];
    }

    method MapNewTables(root: nat, pml4i: nat, pdpi: nat, pdi: nat, e: Word) returns (ok: bool)
      requires Valid() && LoaderOk(View(), root) && !HasPdpt(mem, root, pml4i)
      requires pml4i < 512 && pdpi < 512 && pdi < 512
      modifies this`mem, this`taken, tracker
      ensures Valid()
      ensures LoaderMapEntry(old(View()), root, pml4i, pdpi, pdi, e) == if ok then Some(View()) else None
    {
      ghost var s := View();
      var addr := Alloc();
      if addr == NO_FRAME {
        return false;
      }
      ghost var s1 := View();
      var pdp := addr / FRAME;
      addr := Alloc();
      if addr == NO_FRAME {
        return false;
      }
      var pd := addr / FRAME;
      FreshMap(s, s1, View(), root, pml4i, pdp, pdpi, pd, pdi, e);
      ZeroAgain(pdp, pd);
      Store(pd, pdi, e);
      var w := MakeEntry(pd);
      Store(pdp, pdpi, w);
      w := MakeEntry(pdp);
      Store(root, pml4i, w);
      return true;
    }
  }
}
