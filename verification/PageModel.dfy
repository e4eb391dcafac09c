/**
  Page tables as values: physical memory in 4 KiB frames of 512 entries, the set of frames
  the tracking bitmap marks, and the reference counts. Frames are numbered by address / 4096.
  The operations below are those of the kernel's PML4; None is an assertion or a panic.
 */
module PageModel {
  import opened Words
  import opened Wrappers

  const PAGE: nat := 0x20_0000
  const FRAME: nat := 0x1000
  const VIRTUAL_END: nat := 0x1_0000_0000_0000

  const F_PRESENT: Word := 1
  const F_RW: Word := 2
  const F_PS: Word := 0x80

  type Table = t: seq<Word> | |t| == 512 witness seq(512, _ => 0)
  type Memory = map<nat, Table>

  function ZeroTable(): Table
  {
    seq(512, _ => 0)
  }

  datatype Paging = Paging(start: nat, end: nat, taken: set<nat>, refs: map<nat, nat>, mem: Memory)

  // --- entries ---------------------------------------------------------------------------

  /** `w & F_PRESENT`. */
  predicate Present(w: Word)
  {
    w % 2 == 1
  }

  /** The frame of `w & ~0xFFF`. */
  function Target(w: Word): nat
  {
    w / FRAME
  }

  /** An entry for a table: the frame with `F_PRESENT | F_RW`. */
  function TableEntry(frame: nat): Word
    requires frame * FRAME + 3 < TWO_64
  {
    frame * FRAME + 3
  }

  function PageEntry(paddr: Word, flags: Word): Word
  {
    Or64(Or64(Or64(paddr, flags), F_PRESENT), F_PS)
  }

  lemma {:induction false} OrLow(p: nat, g: nat, y: nat, k: nat)
    requires p % Pow2(k) == 0 && g < Pow2(k) && y < Pow2(k)
    ensures Or(p + g, y) == p + Or(g, y)
  {
    if k != 0 && p + g != 0 && y != 0 {
      ModDouble(p, Pow2(k - 1));
      OrLow(p / 2, g / 2, y / 2, k - 1);
      assert (p + g) / 2 == p / 2 + g / 2;
      if g == 0 {
        assert Or(p / 2, y / 2) == p / 2 + y / 2;
      }
    }
  }

  lemma {:induction false} OrParity(x: nat, y: nat)
    ensures Or(x, y) % 2 == if x % 2 == 1 || y % 2 == 1 then 1 else 0
  {
    OrBit(x, y, 0);
  }

  function LowBits(flags: Word): nat
  {
    Or(Or(flags, F_PRESENT), F_PS)
  }

  lemma LowBitsFacts(flags: Word)
    requires flags < PAGE
    ensures LowBits(flags) < PAGE && LowBits(flags) % 2 == 1 && Or(flags, F_PRESENT) < PAGE
  {
    assert Pow2(21) == PAGE by { Pow2Values(); }
    OrBound(flags, F_PRESENT, 21);
    OrBound(Or(flags, F_PRESENT), F_PS, 21);
    OrParity(flags, F_PRESENT);
    OrParity(Or(flags, F_PRESENT), F_PS);
  }

  lemma OrThrice(p: nat, a: nat, b: nat, c: nat, k: nat)
    requires p % Pow2(k) == 0 && a < Pow2(k) && b < Pow2(k) && c < Pow2(k)
    ensures Or(Or(Or(p, a), b), c) == p + Or(Or(a, b), c)
  {
    OrDisjoint(p, a, k);
    OrLow(p, a, b, k);
    OrBound(a, b, k);
    OrLow(p, Or(a, b), c, k);
  }

  lemma PageEntrySum(paddr: Word, flags: Word)
    requires paddr % PAGE == 0 && flags < PAGE
    ensures PageEntry(paddr, flags) == paddr + LowBits(flags)
  {
    assert Pow2(21) == PAGE by { Pow2Values(); }
    OrThrice(paddr, flags, F_PRESENT, F_PS, 21);
  }

  /** A present entry for an aligned page gives the page back under the mask `~0x1FFFFF`. */
  lemma PageEntryFacts(paddr: Word, flags: Word)
    requires paddr % PAGE == 0 && flags < PAGE
    ensures Present(PageEntry(paddr, flags))
    ensures PageEntry(paddr, flags) - PageEntry(paddr, flags) % PAGE == paddr
  {
    PageEntrySum(paddr, flags);
    LowBitsFacts(flags);
  }

  lemma TableEntryIsOr(frame: nat)
    requires frame * FRAME + 3 < TWO_64
    ensures TableEntry(frame) == Or(Or(frame * FRAME, F_PRESENT), F_RW)
  {
    assert Pow2(12) == FRAME by { Pow2Values(); }
    OrThrice(frame * FRAME, 0, F_PRESENT, F_RW, 12);
    assert Or(1, 2) == 3;
  }

  // --- the tree of tables ------------------------------------------------------------------

  /** Entry `x` of the table in frame `f`. */
  function Entry(m: Memory, f: nat, x: nat): Word
  {
    if f in m && x < 512 then m[f][x] else 0
  }

  predicate HasPdpt(m: Memory, root: nat, i: nat)
  {
    Present(Entry(m, root, i))
  }

  function Pdpt(m: Memory, root: nat, i: nat): nat
  {
    Target(Entry(m, root, i))
  }

  predicate HasPd(m: Memory, root: nat, i: nat, j: nat)
  {
    HasPdpt(m, root, i) && Present(Entry(m, Pdpt(m, root, i), j))
  }

  function Pd(m: Memory, root: nat, i: nat, j: nat): nat
  {
    Target(Entry(m, Pdpt(m, root, i), j))
  }

  /** The page entry reached through the three tables, 0 where one of them is missing. */
  function Leaf(m: Memory, root: nat, i: nat, j: nat, k: nat): Word
  {
    if HasPd(m, root, i, j) then Entry(m, Pd(m, root, i, j), k) else 0
  }

  /** The tables reached from `root` are distinct frames of `frames`: a tree. */
  ghost predicate Tree(m: Memory, frames: set<nat>, root: nat)
  {
    && frames <= m.Keys && root in frames
    && (forall i | HasPdpt(m, root, i) :: Pdpt(m, root, i) in frames && Pdpt(m, root, i) != root)
    && (forall i, i' | HasPdpt(m, root, i) && HasPdpt(m, root, i') && i != i' :: Pdpt(m, root, i) != Pdpt(m, root, i'))
    && (forall i, j | HasPd(m, root, i, j) :: Pd(m, root, i, j) in frames && Pd(m, root, i, j) != root)
    && (forall i, j, i' | HasPd(m, root, i, j) && HasPdpt(m, root, i') :: Pd(m, root, i, j) != Pdpt(m, root, i'))
    && (forall i, j, i', j' | HasPd(m, root, i, j) && HasPd(m, root, i', j') && (i != i' || j != j') ::
          Pd(m, root, i, j) != Pd(m, root, i', j'))
  }

  function Write(m: Memory, f: nat, x: nat, w: Word): Memory
    requires f in m && x < 512
  {
    m[f := m[f][x := w]]
  }

  // --- the frame allocator --------------------------------------------------------------------

  /** The first loop of `pm::alloc` from frame `f` on. */
  function LowestFree(s: Paging, f: nat): (r: Option<nat>)
    ensures r.Some? ==> f <= r.value < s.end && r.value !in s.taken && forall g: nat | f <= g < r.value :: g in s.taken
    ensures r.None? ==> forall g: nat | f <= g < s.end :: g in s.taken
    decreases s.end - f
  {
    if s.end <= f then None
    else if f !in s.taken then Some(f)
    else LowestFree(s, f + 1)
  }

  /** `pm::alloc`: the lowest free frame, marked and zeroed. */
  function AllocFrame(s: Paging): Option<(Paging, nat)>
  {
    var r := LowestFree(s, s.start);
    if r.None? then None
    else Some((s.(taken := s.taken + {r.value}, mem := s.mem[r.value := ZeroTable()]), r.value))
  }

  /** `pm::free`; its assertion is that the frame is marked. */
  function FreeFrame(s: Paging, f: nat): Option<Paging>
  {
    if f in s.taken then Some(s.(taken := s.taken - {f})) else None
  }

  /** `++` on a 16-bit counter. */
  function IncRefs(s: Paging, f: nat): Paging
    requires f in s.refs
  {
    s.(refs := s.refs[f := (s.refs[f] + 1) % 0x1_0000])
  }

  /** `decRefs`: counters stop at zero. */
  function DecRefs(s: Paging, f: nat): Paging
    requires f in s.refs
  {
    if s.refs[f] != 0 then s.(refs := s.refs[f := s.refs[f] - 1]) else s
  }

  /** The frames the allocator manages, each with memory and a counter. */
  ghost predicate Space(s: Paging)
  {
    && s.end <= 0x8_0000_0000_0000
    && (forall f | s.start <= f < s.end :: f in s.refs && f in s.mem)
    && (forall f | f in s.refs :: s.start <= f < s.end)
    && (forall f | f in s.taken :: s.start <= f < s.end)
  }

  ghost predicate Wellformed(s: Paging, root: nat)
  {
    Space(s) && Tree(s.mem, s.taken, root)
  }

  /** The tables reached from `root` are in `frames`, whether or not they form a tree. */
  ghost predicate TablesIn(m: Memory, frames: set<nat>, root: nat)
  {
    && frames <= m.Keys && root in m
    && (forall i | HasPdpt(m, root, i) :: Pdpt(m, root, i) in frames)
    && (forall i, j | HasPd(m, root, i, j) :: Pd(m, root, i, j) in frames)
  }

  /** What `map`, `get` and `unmap` need to find their way. */
  ghost predicate InRange(s: Paging, root: nat)
  {
    Space(s) && TablesIn(s.mem, s.refs.Keys, root)
  }

  // --- map, get, unmap ------------------------------------------------------------------------

  function I4(v: nat): nat { v / 0x80_0000_0000 }
  function I3(v: nat): nat { v / 0x4000_0000 % 512 }
  function I2(v: nat): nat { v / PAGE % 512 }

  /** The branch of `map` where the PDPT is there: entry `j` of it leads to the PD, or to a new one. */
  function MapInPdpt(s: Paging, pdpt: nat, j: nat, k: nat, e: Word): Option<Paging>
    requires Space(s) && pdpt in s.refs && j < 512 && k < 512
    requires var w := Entry(s.mem, pdpt, j); Present(w) ==> Target(w) in s.refs
  {
    var w := Entry(s.mem, pdpt, j);
    if Present(w) then
      var pd := Target(w);
      if Present(Entry(s.mem, pd, k)) then None
      else Some(IncRefs(s.(mem := Write(s.mem, pd, k, e)), pd))
    else
      var r := AllocFrame(s);
      if r.None? then None
      else
        var (s1, pd) := r.value;
        var m := Write(Write(s1.mem, pd, k, e), pdpt, j, TableEntry(pd));
        Some(IncRefs(IncRefs(s1.(mem := m), pd), pdpt))
  }

  /** The branch of `map` where the PDPT and the PD are both new. */
  function MapFresh(s: Paging, root: nat, i: nat, j: nat, k: nat, e: Word): Option<Paging>
    requires Space(s) && root in s.mem && i < 512 && j < 512 && k < 512
  {
    var r1 := AllocFrame(s);
    if r1.None? then None
    else
      var (s1, pdpt) := r1.value;
      var r2 := AllocFrame(s1);
      if r2.None? then None
      else
        var (s2, pd) := r2.value;
        var m := Write(Write(Write(s2.mem, pd, k, e), pdpt, j, TableEntry(pd)), root, i, TableEntry(pdpt));
        Some(IncRefs(IncRefs(s2.(mem := m), pd), pdpt))
  }

  /** `map` on the entry (i, j, k), where `e` is what it writes there. */
  function MapEntry(s: Paging, root: nat, i: nat, j: nat, k: nat, e: Word): Option<Paging>
    requires InRange(s, root) && i < 512 && j < 512 && k < 512
  {
    if HasPdpt(s.mem, root, i) then
      assert Present(Entry(s.mem, Pdpt(s.mem, root, i), j)) ==> HasPd(s.mem, root, i, j);
      MapInPdpt(s, Pdpt(s.mem, root, i), j, k, e)
    else MapFresh(s, root, i, j, k, e)
  }

  function MapPage(s: Paging, root: nat, v: nat, paddr: Word, flags: Word): Option<Paging>
    requires InRange(s, root) && v < VIRTUAL_END
  {
    if v % PAGE != 0 || paddr % PAGE != 0 then None
    else MapEntry(s, root, I4(v), I3(v), I2(v), PageEntry(paddr, flags))
  }

  function Get(m: Memory, root: nat, v: nat): Option<nat>
  {
    var e := Leaf(m, root, I4(v), I3(v), I2(v));
    if Present(e) then Some(e - e % PAGE + v % PAGE) else None
  }

  /** What `unmap` leaves: whether the page was found, and the frames given back. */
  datatype Unmapped = Unmapped(s: Paging, found: bool, freed: seq<nat>)

  /** One reference to the PD goes, and one to the PDPT if that was the PD's last. */
  function ReleaseTables(s: Paging, pdpt: nat, pd: nat): (r: Option<Unmapped>)
    requires pdpt in s.refs && pd in s.refs
    ensures r.Some? ==> r.value.s == s.(refs := r.value.s.refs, taken := r.value.s.taken) && r.value.s.refs.Keys == s.refs.Keys
  {
    var s1 := DecRefs(s, pd);
    if s1.refs[pd] != 0 then Some(Unmapped(s1, true, []))
    else
      var r2 := FreeFrame(s1, pd);
      if r2.None? then None
      else
        var s3 := DecRefs(r2.value, pdpt);
        if s3.refs[pdpt] != 0 then Some(Unmapped(s3, true, [pd]))
        else
          var r4 := FreeFrame(s3, pdpt);
          if r4.None? then None else Some(Unmapped(r4.value, true, [pd, pdpt]))
  }

  /** `unmap` on the entry (i, j, k). No table is written: only counters and marks change. */
  function UnmapEntry(s: Paging, root: nat, i: nat, j: nat, k: nat): (r: Option<Unmapped>)
    requires TablesIn(s.mem, s.refs.Keys, root)
    ensures r.Some? ==> r.value.s == s.(refs := r.value.s.refs, taken := r.value.s.taken) && r.value.s.refs.Keys == s.refs.Keys
  {
    if !Present(Leaf(s.mem, root, i, j, k)) then Some(Unmapped(s, false, []))
    else ReleaseTables(s, Pdpt(s.mem, root, i), Pd(s.mem, root, i, j))
  }

  function UnmapPage(s: Paging, root: nat, v: nat): (r: Option<Unmapped>)
    requires TablesIn(s.mem, s.refs.Keys, root)
    ensures r.Some? ==> r.value.s == s.(refs := r.value.s.refs, taken := r.value.s.taken) && r.value.s.refs.Keys == s.refs.Keys
  {
    if v % PAGE != 0 then None else UnmapEntry(s, root, I4(v), I3(v), I2(v))
  }
}
