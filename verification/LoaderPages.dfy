/**
  The 32-bit loader's PML4, which builds the tables the kernel later takes over. It keeps no
  reference counts, links tables with `F_PRESENT` alone, and overwrites a page entry that is
  already there.
 */
module LoaderPages {
  import opened Words
  import opened Wrappers
  import opened PageModel
  import opened PageTree
  import opened PageTranslation

  /** Frames below 4 GiB: the loader's pointers have 32 bits. */
  const FRAMES_32: nat := 0x10_0000

  /** `addr | 1`. */
  function LoaderEntry(frame: nat): Word
    requires frame < FRAMES_32
  {
    frame * FRAME + 1
  }

  lemma LoaderEntryLinks(f: nat)
    requires f < FRAMES_32
    ensures Links(LoaderEntry(f), f)
  {
    DivModUnique(f * FRAME + 1, FRAME, f, 1);
    DivModUnique(f * FRAME + 1, 2, f * (FRAME / 2), 1);
  }

  /** `paddr | flags | 0x81`. */
  function LoaderPageEntry(paddr: Word, flags: Word): Word
  {
    Or64(paddr, Or64(flags, 0x81))
  }

  lemma LoaderEntryIsOr(frame: nat)
    requires frame < FRAMES_32
    ensures LoaderEntry(frame) == Or(frame * FRAME, 1)
  {
    assert Pow2(12) == FRAME by { Pow2Values(); }
    OrDisjoint(frame * FRAME, 1, 12);
  }

  /** The loader does not look at the alignment: an entry leads to the page its address lies in. */
  lemma LoaderPageEntryFacts(paddr: Word, flags: Word)
    requires flags < PAGE
    ensures Present(LoaderPageEntry(paddr, flags)) && PageBase(LoaderPageEntry(paddr, flags)) == paddr - paddr % PAGE
  {
    hide Or;
    assert Pow2(21) == PAGE by { Pow2Values(); }
    var low := Or(flags, 0x81);
    OrBound(flags, 0x81, 21);
    OrParts(flags, 0x81);
    OrParts(paddr, low);
    OrHigh(paddr, low, 21);
  }

  ghost predicate LoaderOk(s: Paging, root: nat)
  {
    && s.end <= FRAMES_32
    && (forall f | s.start <= f < s.end :: f in s.mem)
    && (forall f | f in s.taken :: s.start <= f < s.end)
    && Tree(s.mem, s.taken, root)
  }

  /** The constructor zeroes the root table; its frame was marked before. */
  function Construct(s: Paging, root: nat): Paging
  {
    s.(mem := s.mem[root := ZeroTable()])
  }

  function LoaderMapEntry(s: Paging, root: nat, i: nat, j: nat, k: nat, e: Word): Option<Paging>
    requires LoaderOk(s, root) && i < 512 && j < 512 && k < 512
  {
    if HasPdpt(s.mem, root, i) then
      var pdp := Pdpt(s.mem, root, i);
      if HasPd(s.mem, root, i, j) then Some(s.(mem := Write(s.mem, Pd(s.mem, root, i, j), k, e)))
      else
        var r := AllocFrame(s);
        if r.None? then None
        else
          var (s1, pd) := r.value;
          Some(s1.(mem := Write(Write(s1.mem, pd, k, e), pdp, j, LoaderEntry(pd))))
    else
      var r1 := AllocFrame(s);
      if r1.None? then None
      else
        var (s1, pdp) := r1.value;
        var r2 := AllocFrame(s1);
        if r2.None? then None
        else
          var (s2, pd) := r2.value;
          Some(s2.(mem := Write(Write(Write(s2.mem, pd, k, e), pdp, j, LoaderEntry(pd)), root, i, LoaderEntry(pdp))))
  }

  function LoaderMap(s: Paging, root: nat, v: nat, paddr: Word, flags: Word): Option<Paging>
    requires LoaderOk(s, root) && v < VIRTUAL_END
  {
    LoaderMapEntry(s, root, I4(v), I3(v), I2(v), LoaderPageEntry(paddr, flags))
  }

  // --- what map keeps -----------------------------------------------------------------------

  /** Every table that is linked has an entry. */
  ghost predicate NoEmptyTable(m: Memory, root: nat)
  {
    && (forall i | HasPdpt(m, root, i) :: exists j :: HasPd(m, root, i, j))
    && (forall i, j | HasPd(m, root, i, j) :: exists k :: Present(Leaf(m, root, i, j, k)))
  }

  lemma MapOldPd(s: Paging, root: nat, i: nat, j: nat, k: nat, e: Word)
    requires LoaderOk(s, root) && i < 512 && j < 512 && k < 512 && HasPd(s.mem, root, i, j)
    ensures var s' := LoaderMapEntry(s, root, i, j, k, e).value;
      LoaderOk(s', root) && AddsTables(s.mem, s'.mem, root, i, j) && OneLeaf(s.mem, s'.mem, root, i, j, k, e)
  {
    WriteLeafShape(s.mem, s.taken, root, i, j, k, e);
    WriteLeafTree(s.mem, s.taken, root, i, j, k, e);
    SamePdptEntries(s.mem, Write(s.mem, Pd(s.mem, root, i, j), k, e), root);
  }

  lemma SamePdptEntries(m: Memory, m': Memory, root: nat)
    requires forall x :: Entry(m', root, x) == Entry(m, root, x)
    ensures forall x :: HasPdpt(m', root, x) == HasPdpt(m, root, x)
  {
  }

  /** A new PD in frame `d`, linked and with its first entry written. */
  lemma NewPd(m: Memory, frames: set<nat>, root: nat, i: nat, j: nat, d: nat, w: Word, k: nat, e: Word)
    requires Tree(m, frames, root) && j < 512 && k < 512 && HasPdpt(m, root, i) && !HasPd(m, root, i, j)
    requires d !in frames && Links(w, d)
    ensures var m' := Write(LinkPd(m, root, i, j, d, w), d, k, e);
      Tree(m', frames + {d}, root) && AddsTables(m, m', root, i, j) && OneLeaf(m, m', root, i, j, k, e)
  {
    var m1 := LinkPd(m, root, i, j, d, w);
    LinkPdShape(m, frames, root, i, j, d, w);
    LinkPdTree(m, frames, root, i, j, d, w);
    LinkPdLeaf(m, frames, root, i, j, d, w);
    SamePdptEntries(m, m1, root);
    WriteLeafShape(m1, frames + {d}, root, i, j, k, e);
    WriteLeafTree(m1, frames + {d}, root, i, j, k, e);
    SamePdptEntries(m1, Write(m1, d, k, e), root);
  }

  /** The memory `map` leaves when it adds a PD in frame `d`. */
  lemma NewPdMemory(m: Memory, frames: set<nat>, root: nat, i: nat, j: nat, d: nat, w: Word, k: nat, e: Word)
    requires Tree(m, frames, root) && j < 512 && k < 512 && HasPdpt(m, root, i) && !HasPd(m, root, i, j)
    requires d !in frames && Links(w, d)
    ensures var m' := Write(Write(m[d := ZeroTable()], d, k, e), Pdpt(m, root, i), j, w);
      Tree(m', frames + {d}, root) && AddsTables(m, m', root, i, j) && OneLeaf(m, m', root, i, j, k, e)
  {
    SameMemoryPd(m, Pdpt(m, root, i), j, d, w, k, e);
    NewPd(m, frames, root, i, j, d, w, k, e);
  }

  /** The memory `map` leaves when it adds a PDPT in frame `p` and a PD in frame `d`. */
  lemma NewBothMemory(m: Memory, frames: set<nat>, root: nat, i: nat, j: nat, p: nat, wp: Word, d: nat, wd: Word, k: nat, e: Word)
    requires Tree(m, frames, root) && i < 512 && j < 512 && k < 512 && !HasPdpt(m, root, i)
    requires p !in frames && d !in frames && p != d && Links(wp, p) && Links(wd, d)
    ensures var m' := Write(Write(Write(m[p := ZeroTable()][d := ZeroTable()], d, k, e), p, j, wd), root, i, wp);
      Tree(m', frames + {p} + {d}, root) && AddsTables(m, m', root, i, j) && OneLeaf(m, m', root, i, j, k, e)
  {
    SameMemory(m, root, i, p, wp, j, d, wd, k, e);
    NewBoth(m, frames, root, i, j, p, wp, d, wd, k, e);
  }

  /** What `map` allocates lies in the range and was free. */
  lemma LoaderOkAfter(s: Paging, s': Paging, root: nat)
    requires LoaderOk(s, root) && s'.start == s.start && s'.end == s.end && s.mem.Keys <= s'.mem.Keys
    requires forall f | f in s'.taken && f !in s.taken :: s.start <= f < s.end
    requires Tree(s'.mem, s'.taken, root)
    ensures LoaderOk(s', root)
  {
  }

  lemma MapNewPd(s: Paging, root: nat, i: nat, j: nat, k: nat, e: Word, s': Paging)
    requires LoaderOk(s, root) && i < 512 && j < 512 && k < 512 && HasPdpt(s.mem, root, i) && !HasPd(s.mem, root, i, j)
    requires LoaderMapEntry(s, root, i, j, k, e) == Some(s')
    ensures s'.taken == s.taken + {LowestFree(s, s.start).value} && s.mem.Keys <= s'.mem.Keys
    ensures Tree(s'.mem, s'.taken, root) && AddsTables(s.mem, s'.mem, root, i, j) && OneLeaf(s.mem, s'.mem, root, i, j, k, e)
  {
    var d := LowestFree(s, s.start).value;
    assert s'.mem == Write(Write(s.mem[d := ZeroTable()], d, k, e), Pdpt(s.mem, root, i), j, LoaderEntry(d));
    LoaderEntryLinks(d);
    NewPdMemory(s.mem, s.taken, root, i, j, d, LoaderEntry(d), k, e);
  }

  lemma MapNewPdpt(s: Paging, root: nat, i: nat, j: nat, k: nat, e: Word, s': Paging)
    requires LoaderOk(s, root) && i < 512 && j < 512 && k < 512 && !HasPdpt(s.mem, root, i)
    requires LoaderMapEntry(s, root, i, j, k, e) == Some(s')
    ensures s.mem.Keys <= s'.mem.Keys && forall f | f in s'.taken && f !in s.taken :: s.start <= f < s.end
    ensures Tree(s'.mem, s'.taken, root) && AddsTables(s.mem, s'.mem, root, i, j) && OneLeaf(s.mem, s'.mem, root, i, j, k, e)
  {
    var (s1, p) := AllocFrame(s).value;
    var (s2, d) := AllocFrame(s1).value;
    FreshMap(s, s1, s2, root, i, p, j, d, k, e);
    var m' := s'.mem;
    assert m' == Write(Write(Write(s.mem[p := ZeroTable()][d := ZeroTable()], d, k, e), p, j, LoaderEntry(d)), root, i, LoaderEntry(p));
    LoaderEntryLinks(p);
    LoaderEntryLinks(d);
    NewBothMemory(s.mem, s.taken, root, i, j, p, LoaderEntry(p), d, LoaderEntry(d), k, e);
  }

  /** The frames and the memory of the branch that adds both tables. */
  lemma FreshMap(s: Paging, s1: Paging, s2: Paging, root: nat, i: nat, p: nat, j: nat, d: nat, k: nat, e: Word)
    requires LoaderOk(s, root) && i < 512 && j < 512 && k < 512 && !HasPdpt(s.mem, root, i)
    requires AllocFrame(s) == Some((s1, p)) && AllocFrame(s1) == Some((s2, d))
    ensures s.start <= p < s.end && s.start <= d < s.end && p !in s.taken && d !in s.taken && p != d
    ensures LoaderMapEntry(s, root, i, j, k, e) == Some(s.(taken := s.taken + {p} + {d}, mem :=
      Write(Write(Write(s.mem[p := ZeroTable()][d := ZeroTable()], d, k, e), p, j, LoaderEntry(d)), root, i, LoaderEntry(p))))
  {
  }

  lemma NewBoth(m: Memory, frames: set<nat>, root: nat, i: nat, j: nat, p: nat, wp: Word, d: nat, wd: Word, k: nat, e: Word)
    requires Tree(m, frames, root) && i < 512 && j < 512 && k < 512 && !HasPdpt(m, root, i)
    requires p !in frames && d !in frames && p != d && Links(wp, p) && Links(wd, d)
    ensures Pdpt(LinkPdpt(m, root, i, p, wp), root, i) in LinkPdpt(m, root, i, p, wp)
    ensures var m' := Write(LinkPd(LinkPdpt(m, root, i, p, wp), root, i, j, d, wd), d, k, e);
      Tree(m', frames + {p} + {d}, root) && AddsTables(m, m', root, i, j) && OneLeaf(m, m', root, i, j, k, e)
  {
    var m1 := LinkPdpt(m, root, i, p, wp);
    LinkPdptShape(m, frames, root, i, p, wp);
    LinkPdptTree(m, frames, root, i, p, wp);
    LinkPdptLeaf(m, frames, root, i, p, wp);
    NewPd(m1, frames + {p}, root, i, j, d, wd, k, e);
  }

  /** A `map` that completes keeps the tree and writes one page entry, whatever was there. */
  lemma LoaderMapEffect(s: Paging, root: nat, i: nat, j: nat, k: nat, e: Word, s': Paging)
    requires LoaderOk(s, root) && i < 512 && j < 512 && k < 512
    requires LoaderMapEntry(s, root, i, j, k, e) == Some(s')
    ensures LoaderOk(s', root) && AddsTables(s.mem, s'.mem, root, i, j) && OneLeaf(s.mem, s'.mem, root, i, j, k, e)
    ensures s'.start == s.start && s'.end == s.end
  {
    if !HasPdpt(s.mem, root, i) {
      MapNewPdpt(s, root, i, j, k, e, s');
      LoaderOkAfter(s, s', root);
    } else if !HasPd(s.mem, root, i, j) {
      MapNewPd(s, root, i, j, k, e, s');
      LoaderOkAfter(s, s', root);
    } else {
      MapOldPd(s, root, i, j, k, e);
    }
  }

  lemma EntryFillsTables(m: Memory, m': Memory, root: nat, i: nat, j: nat, k: nat, e: Word)
    requires NoEmptyTable(m, root) && AddsTables(m, m', root, i, j) && OneLeaf(m, m', root, i, j, k, e) && Present(e)
    ensures NoEmptyTable(m', root)
  {
    forall x | HasPdpt(m', root, x)
      ensures exists y :: HasPd(m', root, x, y)
    {
      if x == i {
        assert HasPd(m', root, i, j);
      } else {
        var y :| HasPd(m, root, x, y);
        assert HasPd(m', root, x, y);
      }
    }
    forall x, y | HasPd(m', root, x, y)
      ensures exists z :: Present(Leaf(m', root, x, y, z))
    {
      if x == i && y == j {
        assert Leaf(m', root, i, j, k) == e;
      } else {
        var z :| Present(Leaf(m, root, x, y, z));
        assert Leaf(m', root, x, y, z) == Leaf(m, root, x, y, z);
      }
    }
  }

  // --- runs of the loader's map -----------------------------------------------------------------

  /** `r` completes in `s` and leads to `s'`. */
  ghost predicate LoaderMaps(s: Paging, root: nat, r: Request, s': Paging)
  {
    ValidRequest(r) && (LoaderOk(s, root) ==> LoaderMap(s, root, r.v, r.p, r.flags) == Some(s'))
  }

  lemma MapsEntry(s: Paging, root: nat, r: Request, s': Paging)
    requires LoaderOk(s, root) && LoaderMaps(s, root, r, s')
    ensures ValidRequest(r) && I4(r.v) < 512 && I3(r.v) < 512 && I2(r.v) < 512
    ensures LoaderMapEntry(s, root, I4(r.v), I3(r.v), I2(r.v), LoaderPageEntry(r.p, r.flags)) == Some(s')
  {
    PageIndices(r.v);
    hide LoaderMapEntry, LoaderPageEntry, LoaderOk;
  }

  lemma LoaderMapsKeeps(s: Paging, root: nat, r: Request, s': Paging)
    requires LoaderOk(s, root) && NoEmptyTable(s.mem, root) && LoaderMaps(s, root, r, s')
    ensures LoaderOk(s', root) && NoEmptyTable(s'.mem, root) && s'.start == s.start && s'.end == s.end
    ensures Translation(s'.mem, root) == Translation(s.mem, root)[r.v / PAGE := r.Page()]
  {
    hide LoaderMaps, LoaderMapEntry, LoaderPageEntry, LoaderOk, Tree, NoEmptyTable, OneLeaf, AddsTables, PageBase, Translation;
    var e := LoaderPageEntry(r.p, r.flags);
    MapsEntry(s, root, r, s');
    LoaderPageEntryFacts(r.p, r.flags);
    LoaderMapEffect(s, root, I4(r.v), I3(r.v), I2(r.v), e, s');
    EntryFillsTables(s.mem, s'.mem, root, I4(r.v), I3(r.v), I2(r.v), e);
    OneLeafTranslates(s.mem, s'.mem, root, r.v, e);
  }

  /** From the constructor on, each state is what `map` makes of the one before. */
  ghost predicate LoaderRun(trace: seq<Paging>, root: nat, rs: seq<Request>)
  {
    && |trace| == |rs| + 1
    && forall i: nat | i < |rs| :: LoaderMaps(trace[i], root, rs[i], trace[i + 1])
  }

  lemma ConstructedTree(s: Paging, root: nat)
    requires s.end <= FRAMES_32 && (forall f | s.start <= f < s.end :: f in s.mem)
    requires (forall f | f in s.taken :: s.start <= f < s.end) && root in s.taken
    ensures var c := Construct(s, root);
      LoaderOk(c, root) && NoEmptyTable(c.mem, root) && Translation(c.mem, root) == map[]
  {
    var m := Construct(s, root).mem;
    assert forall i :: Entry(m, root, i) == 0;
    assert forall i :: !HasPdpt(m, root, i);
    assert forall g: nat :: PageLeaf(m, root, g) == 0;
  }

  /** Over any run the loader's tables are a tree without empty tables, and the last `map` of a page counts. */
  lemma {:induction false} LoaderRunKeeps(trace: seq<Paging>, root: nat, rs: seq<Request>, n: nat)
    requires LoaderRun(trace, root, rs) && n <= |rs|
    requires LoaderOk(trace[0], root) && NoEmptyTable(trace[0].mem, root) && Translation(trace[0].mem, root) == map[]
    ensures LoaderOk(trace[n], root) && NoEmptyTable(trace[n].mem, root)
    ensures trace[n].start == trace[0].start && trace[n].end == trace[0].end
    ensures Translation(trace[n].mem, root) == Extend(map[], rs[..n])
  {
    if n > 0 {
      LoaderRunKeeps(trace, root, rs, n - 1);
      assert LoaderMaps(trace[n - 1], root, rs[n - 1], trace[n - 1 + 1]);
      LoaderMapsKeeps(trace[n - 1], root, rs[n - 1], trace[n]);
      assert rs[..n][..n - 1] == rs[..n - 1];
    }
  }
}
