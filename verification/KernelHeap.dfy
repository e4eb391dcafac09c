/** The allocator as the class the kernel uses, its methods writing header fields in place. */
module KernelHeap {
  import opened Words
  import opened Wrappers
  import opened Algorithm
  import opened HeapModel
  import opened HeapSafety
  import opened HeapAligned

  datatype AlignedReturn = Returned(p: nat) | NoBlock | Hangs

  // The operations on the flags word, each a single expression of the source.

  method CheckMagic(flags: Flags) returns (ok: bool)
    ensures ok
  {
    FlagOperations(flags);
    ok := And(flags, MAGIC) == MAGIC;
  }

  method IsAllocated(flags: Flags) returns (b: bool)
    ensures b <==> flags == USED
  {
    FlagOperations(flags);
    b := And(flags, HF_ALLOC) != 0;
  }

  method SetAllocated(flags: Flags) returns (f: Flags)
    ensures f == USED
  {
    FlagOperations(flags);
    f := Or64(flags, HF_ALLOC);
  }

  method ClearAllocated(flags: Flags) returns (f: Flags)
    ensures f == FREE
  {
    FlagOperations(flags);
    f := And64(flags, Not64(HF_ALLOC));
  }

  /** Memory where no header is starts out as a free header of zeroes; a new header overwrites all of it. */
  function Slot(hdrs: map<nat, Header>, x: nat): Header
  {
    if x in hdrs then hdrs[x] else Header(FREE, 0, 0, 0)
  }

  class Heap {
    var m_base: Word
    var m_size: Word
    var hdrs: map<nat, Header>

    ghost function State(): HeapState
      reads this
    {
      HeapState(m_base, m_size, hdrs)
    }

    /** Uninitialised, or tiled. */
    ghost predicate Valid()
      reads this
    {
      if m_size != 0 then Tiled(State()) else m_base == 0 && hdrs == map[]
    }

    constructor Empty()
      ensures Valid() && m_size == 0
    {
      m_base, m_size, hdrs := 0, 0, map[];
    }

    constructor (base: Word, size: Word)
      ensures State() == ResetState(base, size)
      ensures Valid() <==> 0 < base && HEADER_SIZE <= size && base + size < TWO_64
    {
      m_base, m_size := base, size;
      hdrs := map[base as nat := Header(MAGIC, Wrap(size - HEADER_SIZE), 0, 0)];
      new;
      ResetTilesIff(base, size);
      assert base as nat in hdrs;
    }

    /** False is the panic on living objects; the heap is then as it was. Not all bounds make a heap. */
    method Reset(base: Word, size: Word) returns (ok: bool)
      requires Valid()
      modifies this
      ensures ok <==> old(m_size) == 0 || LiveBlocks(old(State())) == map[]
      ensures State() == if ok then ResetState(base, size) else old(State())
      ensures Valid() <==> !ok || (0 < base && HEADER_SIZE <= size && base + size < TWO_64)
    {
      if m_size != 0 {
        ghost var c := Chain(State());
        ghost var i: nat := 0;
        var hdr: nat := m_base;
        while hdr != 0
          invariant State() == old(State())
          invariant i <= |c| && (if hdr == 0 then i == |c| else i < |c| && c[i] == hdr)
          invariant forall k: nat | k < i :: c[k] in hdrs && !hdrs[c[k]].Used()
          decreases |c| - i
        {
          OnChain(State(), c, i);
          var magic := CheckMagic(hdrs[hdr].flags);
          assert magic;
          var used := IsAllocated(hdrs[hdr].flags);
          if used {
            assert hdr in LiveBlocks(State());
            return false;
          }
          hdr := hdrs[hdr].next;
          i := i + 1;
        }
        assert LiveBlocks(State()) == map[];
      }
      m_base, m_size := base, size;
      hdrs := map[base as nat := Header(MAGIC, Wrap(size - HEADER_SIZE), 0, 0)];
      ResetTilesIff(base, size);
      assert base as nat in hdrs;
      return true;
    }

    /** Cuts the block at `hdr` after `size` bytes: the step `alloc` and `allocAligned` share. */
    method CutEnd(hdr: Word, size: Word)
      requires hdr in hdrs
      modifies this`hdrs
      ensures State() == Split(old(State()), hdr, size)
    {
      var flags := SetAllocated(hdrs[hdr].flags);
      hdrs := hdrs[hdr as nat := hdrs[hdr].(flags := flags)];
      var newHeader: nat := Wrap(hdr + HEADER_SIZE + size);
      hdrs := hdrs[newHeader := Header(MAGIC, Wrap(hdrs[hdr].length - size - HEADER_SIZE), hdr, hdrs[hdr].next)];
      hdrs := hdrs[hdr as nat := hdrs[hdr].(next := newHeader)];
      hdrs := hdrs[hdr as nat := hdrs[hdr].(length := size)];
    }

    /** Takes the block at `hdr` as it is. */
    method TakeWhole(hdr: Word)
      requires hdr in hdrs
      modifies this`hdrs
      ensures State() == Take(old(State()), hdr)
    {
      var flags := SetAllocated(hdrs[hdr].flags);
      hdrs := hdrs[hdr as nat := hdrs[hdr].(flags := flags)];
    }

    method Alloc(size: Word) returns (r: Option<nat>)
      requires Valid()
      modifies this`hdrs
      ensures (State(), r) == HeapModel.Alloc(old(State()), size)
      ensures old(m_size) != 0 && size + 32 < TWO_64 ==> LowestTaken(old(State()), size, r)
    {
      hide LowestTaken, HeapModel.Alloc;
      if m_size != 0 && size + 32 < TWO_64 {
        AllocIsFirstFit(State(), size);
      }
      r := PlaceFirst(size);
    }

    method PlaceFirst(size: Word) returns (r: Option<nat>)
      requires Valid()
      modifies this`hdrs
      ensures (State(), r) == HeapModel.Alloc(old(State()), size)
    {
      ghost var h := State();
      ghost var c := Chain(h);
      ghost var i: nat := 0;
      var hdr: nat := m_base;
      while hdr != 0
        invariant State() == h
        invariant i <= |c| && (if hdr == 0 then i == |c| else i < |c| && c[i] == hdr && Tiled(h))
        invariant FirstFit(h, c, size) == FirstFit(h, c[i..], size)
        decreases |c| - i
      {
        OnChain(h, c, i);
        var magic := CheckMagic(hdrs[hdr].flags);
        assert magic;
        var used := IsAllocated(hdrs[hdr].flags);
        if !used {
          var addr := hdr + HEADER_SIZE;
          if hdrs[hdr].length > Wrap(size + HEADER_SIZE) {
            assert Accepts(h.hdrs[c[i]], size);
            CutEnd(hdr, size);
            return Some(addr);
          } else if hdrs[hdr].length == size {
            assert Accepts(h.hdrs[c[i]], size);
            TakeWhole(hdr);
            return Some(addr);
          }
        }
        hdr := hdrs[hdr].next;
        i := i + 1;
      }
      return None;
    }

    /** The inner loop of `allocAligned` on the block at `hdr`. */
    method FindCut(hdr: Word, size: Word, align: Word) returns (cut: Cut)
      requires hdr in hdrs
      ensures cut == CutOf(State(), hdr, size, align)
    {
      var used := IsAllocated(hdrs[hdr].flags);
      if used {
        return Pass;
      }
      var length := hdrs[hdr].length;
      var addr := Wrap(hdr + HEADER_SIZE);
      var nextAligned: Word := AlignUp(addr, align);
      while true
        invariant CutOf(State(), hdr, size, align) == Probe(length, addr, size, align, nextAligned)
        decreases
          var pad := Wrap(nextAligned - addr);
          if pad >= HEADER_SIZE then 0 else if align <= SIGN_64 then HEADER_SIZE - pad else pad + 1
      {
        var padSize := Wrap(nextAligned - addr);
        var actualSize := Wrap(length - padSize);
        if actualSize >= SIGN_64 {
          return Pass;
        }
        if addr == nextAligned {
          return if actualSize == size then Whole else Front;
        }
        if padSize < HEADER_SIZE {
          nextAligned := Wrap(nextAligned + align);
          if Wrap(nextAligned - addr) >= length {
            return Pass;
          }
          if align == 0 {
            // Nothing changes from here on: the loop goes round for ever.
            return Spin;
          }
        } else if actualSize > Wrap(size + HEADER_SIZE) {
          return Middle(nextAligned);
        } else if actualSize == size {
          return Back(nextAligned);
        } else {
          // Nor here.
          return Spin;
        }
      }
    }

    method CutBothEnds(hdr: Word, nextAligned: Word, size: Word)
      requires hdr in hdrs && nextAligned != Wrap(hdr + HEADER_SIZE)
      modifies this`hdrs
      ensures State() == CutMiddle(old(State()), hdr, nextAligned, size)
    {
      var padSize := Wrap(nextAligned - Wrap(hdr + HEADER_SIZE));
      var actualSize := Wrap(hdrs[hdr].length - padSize);
      WriteThree(hdr, Wrap(nextAligned - HEADER_SIZE), Wrap(nextAligned + size),
                 Wrap(padSize - HEADER_SIZE), size, Wrap(actualSize - size - HEADER_SIZE));
    }

    /** The writes of that branch, field by field. */
    method WriteThree(hdr: Word, mid: Word, end: Word, front: Word, size: Word, back: Word)
      requires hdr in hdrs && mid != hdr
      modifies this`hdrs
      ensures hdrs == WithMiddle(old(hdrs), hdr, mid, end, front, size, back)
    {
      hdrs := hdrs[end as nat := Slot(hdrs, end).(next := hdrs[hdr].next)];
      hdrs := hdrs[mid as nat := Slot(hdrs, mid).(next := end)];
      hdrs := hdrs[hdr as nat := hdrs[hdr].(next := mid)];
      hdrs := hdrs[end as nat := hdrs[end].(length := back)];
      hdrs := hdrs[mid as nat := hdrs[mid].(length := size)];
      hdrs := hdrs[hdr as nat := hdrs[hdr].(length := front)];
      hdrs := hdrs[end as nat := hdrs[end].(flags := FREE)];
      hdrs := hdrs[mid as nat := hdrs[mid].(flags := USED)];
      hdrs := hdrs[mid as nat := hdrs[mid].(prev := hdr)];
      hdrs := hdrs[end as nat := hdrs[end].(prev := mid)];
    }

    method CutBeginning(hdr: Word, nextAligned: Word, size: Word)
      requires hdr in hdrs && nextAligned != Wrap(hdr + HEADER_SIZE)
      modifies this`hdrs
      ensures State() == CutBack(old(State()), hdr, nextAligned, size)
    {
      var padSize := Wrap(nextAligned - Wrap(hdr + HEADER_SIZE));
      WriteTwo(hdr, Wrap(nextAligned - HEADER_SIZE), Wrap(padSize - HEADER_SIZE), size);
    }

    /** The writes of that branch, field by field. */
    method WriteTwo(hdr: Word, end: Word, front: Word, size: Word)
      requires hdr in hdrs && end != hdr
      modifies this`hdrs
      ensures hdrs == old(hdrs)[hdr as nat := old(hdrs[hdr]).(length := front, next := end)]
                               [end as nat := Header(USED, size, hdr, old(hdrs[hdr].next))]
    {
      hdrs := hdrs[end as nat := Slot(hdrs, end).(prev := hdr)];
      hdrs := hdrs[end as nat := hdrs[end].(next := hdrs[hdr].next)];
      hdrs := hdrs[hdr as nat := hdrs[hdr].(next := end)];
      hdrs := hdrs[end as nat := hdrs[end].(length := size)];
      hdrs := hdrs[hdr as nat := hdrs[hdr].(length := front)];
      hdrs := hdrs[end as nat := hdrs[end].(flags := USED)];
    }

    method AllocAligned(size: Word, align: Word) returns (r: AlignedReturn)
      requires Valid()
      modifies this`hdrs
      ensures match HeapAligned.AllocAligned(old(State()), size, align)
        case Got(h', p) => r == Returned(p) && State() == h'
        case NoRoom => r == NoBlock && State() == old(State())
        case Diverges => r == Hangs && State() == old(State())
    {
      ghost var h := State();
      ghost var c := Chain(h);
      ghost var i: nat := 0;
      var hdr: nat := m_base;
      hide HeapAligned.AllocAligned, FirstCut, CutOf, Commit, Walk, Linked;
      FirstCutEnds(h, size, align);
      while hdr != 0
        invariant State() == h
        invariant i <= |c| && (if hdr == 0 then i == |c| else i < |c| && c[i] == hdr && Tiled(h))
        invariant FirstCut(h, c, size, align) == FirstCut(h, c[i..], size, align)
        decreases |c| - i
      {
        OnChain(h, c, i);
        FirstCutStep(h, c, i, size, align);
        var magic := CheckMagic(hdrs[hdr].flags);
        assert magic;
        var cut := FindCut(hdr, size, align);
        if cut != Pass {
          r := PerformCut(hdr, cut, size, align);
          return;
        }
        hdr := hdrs[hdr].next;
        i := i + 1;
      }
      return NoBlock;
    }

    method PerformCut(hdr: Word, cut: Cut, size: Word, align: Word) returns (r: AlignedReturn)
      requires hdr in hdrs && cut == CutOf(State(), hdr, size, align) != Pass && hdr + HEADER_SIZE < TWO_64
      modifies this`hdrs
      ensures match Commit(old(State()), hdr, size, align)
        case Got(h', p) => r == Returned(p) && State() == h'
        case _ => r == Hangs && State() == old(State())
    {
      PaddedCut(State(), hdr, size, align);
      match cut {
        case Whole =>
          TakeWhole(hdr);
          return Returned(hdr + HEADER_SIZE);
        case Front =>
          CutEnd(hdr, size);
          return Returned(hdr + HEADER_SIZE);
        case Middle(at) =>
          CutBothEnds(hdr, at, size);
          return Returned(at);
        case Back(at) =>
          CutBeginning(hdr, at, size);
          return Returned(at);
        case Spin =>
          return Hangs;
      }
    }

    /** Makes the block after `hdr` part of it and wipes its header. */
    method AbsorbNext(hdr: Word)
      requires hdr in hdrs && hdrs[hdr].next in hdrs
      modifies this`hdrs
      ensures State() == Absorb(old(State()), hdr)
    {
      var next: nat := hdrs[hdr].next;
      var after: nat := hdrs[next].next;
      hdrs := hdrs[hdr as nat := hdrs[hdr].(length := Wrap(hdrs[hdr].length + (HEADER_SIZE + hdrs[next].length)))];
      hdrs := hdrs[hdr as nat := hdrs[hdr].(next := hdrs[next].next)];
      if hdrs[hdr].next != 0 && hdrs[hdr].next in hdrs {
        hdrs := hdrs[hdrs[hdr].next as nat := hdrs[hdrs[hdr].next].(prev := hdr)];
      }
      hdrs := hdrs - {next};
    }

    /** The first loop of `free`. None is the failed assertion on the magic. */
    method WalkBack(a: Word) returns (r: Option<Word>)
      requires a in hdrs && PrevBelow(State())
      ensures r.None? <==> BackFrom(State(), a).None?
      ensures r.Some? ==> BackFrom(State(), a) == Some(r.value as nat)
    {
      var hdr: Word := a;
      while hdrs[hdr].prev != 0
        invariant hdr in hdrs && BackFrom(State(), a) == BackFrom(State(), hdr)
        decreases hdr
      {
        var prev := hdrs[hdr].prev;
        if prev !in hdrs {
          return None;
        }
        var used := IsAllocated(hdrs[prev].flags);
        if used {
          break;
        }
        hdr := prev;
      }
      return Some(hdr);
    }

    /** The second loop of `free`. False is the failed assertion on the magic. */
    method MergeForward(hdr: Word) returns (ok: bool)
      requires hdr in hdrs
      modifies this`hdrs
      ensures ok <==> Merge(old(State()), hdr).Some?
      ensures ok ==> Merge(old(State()), hdr) == Some(State())
    {
      ghost var h := State();
      while hdr in hdrs && hdrs[hdr].next != 0
        invariant if hdr in hdrs then Merge(h, hdr) == Merge(State(), hdr) else Merge(h, hdr) == Some(State())
        decreases |hdrs|
      {
        var next := hdrs[hdr].next;
        if next !in hdrs {
          return false;
        }
        var used := IsAllocated(hdrs[next].flags);
        if used {
          break;
        }
        AbsorbNext(hdr);
      }
      return true;
    }

    /** False is a failed assertion or the double-free panic. */
    method Free(p: Word) returns (ok: bool)
      requires Valid()
      modifies this`hdrs
      ensures PrevBelow(old(State()))
      ensures ok <==> HeapModel.Free(old(State()), p).Some?
      ensures ok ==> State() == HeapModel.Free(old(State()), p).value && Valid()
    {
      ghost var h := State();
      if m_size != 0 {
        TiledPrevBelow(h);
        FreeKeepsHeap(h, p);
      }
      var hdr := Wrap(p - HEADER_SIZE);
      if hdr !in hdrs {
        return false;
      }
      var used := IsAllocated(hdrs[hdr].flags);
      if !used {
        return false;
      }
      var flags := ClearAllocated(hdrs[hdr].flags);
      hdrs := hdrs[hdr as nat := hdrs[hdr].(flags := flags)];
      assert State() == Release(h, hdr);
      var start := WalkBack(hdr);
      if start.None? {
        return false;
      }
      ok := MergeForward(start.value);
    }

    method FreeChecked(p: Word, sz: Word) returns (ok: bool)
      requires Valid()
      modifies this
      ensures PrevBelow(old(State()))
      ensures ok <==> HeapModel.FreeChecked(old(State()), p, sz).Some?
      ensures ok <==> p >= 32 && p - 32 in old(hdrs) && old(hdrs)[p - 32].length == sz && HeapModel.Free(old(State()), p).Some?
      ensures ok ==> Some(State()) == HeapModel.Free(old(State()), p) && Valid()
      ensures ok ==> HeapModel.FreeChecked(old(State()), p, sz) == Some(State())
    {
      if m_size != 0 {
        TiledPrevBelow(State());
      }
      var hdr: nat := Wrap(p - HEADER_SIZE);
      if hdr in hdrs {
        NextBlock(State(), hdr);
        BaseIsBlock(State());
      }
      if hdr !in hdrs || sz != hdrs[hdr].length {
        return false;
      }
      ok := Free(p);
    }
  }

  lemma FirstCutStep(h: HeapState, c: seq<nat>, i: nat, size: Word, align: Word)
    requires (forall a | a in c :: a in h.hdrs) && i < |c|
    ensures FirstCut(h, c[i..], size, align) ==
      if CutOf(h, c[i], size, align) != Pass then Some(c[i]) else FirstCut(h, c[i + 1..], size, align)
  {
    hide CutOf;
    assert c[i..][1..] == c[i + 1..];
  }

  lemma FirstCutEnds(h: HeapState, size: Word, align: Word)
    ensures var c := Chain(h); FirstCut(h, c[|c|..], size, align) == None
    ensures var r := FirstCut(h, Chain(h), size, align);
      HeapAligned.AllocAligned(h, size, align) == if r.None? then NoRoom else Commit(h, r.value, size, align)
  {
    hide CutOf, Commit;
  }

  /** Block `i` of the chain, and what its `next` leads to. */
  lemma OnChain(h: HeapState, c: seq<nat>, i: nat)
    requires Tiled(h) && c == Chain(h) && i < |c|
    ensures c[i] in h.hdrs && h.base <= c[i] && c[i] + HEADER_SIZE < TWO_64
    ensures var next := h.hdrs[c[i]].next; if next == 0 then i + 1 == |c| else i + 1 < |c| && next == c[i + 1]
  {
    assert BlockAt(h, c, i);
    InRegion(h, c, i);
    if i + 1 < |c| {
      InRegion(h, c, i + 1);
    }
  }
}
