/** Map a set of pages, unmap each of them once in any order: nothing is leaked, nothing freed twice. */
module PageRoundTrip {
  import opened Words
  import opened Wrappers
  import opened PageModel
  import opened PageTree
  import opened PageInvariant
  import opened PageTranslation
  import opened PageConservation

  predicate Referenced(s: Paging, f: nat, but: nat)
  {
    f in s.refs && (f != but ==> s.refs[f] > 0)
  }

  /** No table reached from `root` is unreferenced, but for the frame `f`. */
  ghost predicate PopulatedBut(s: Paging, root: nat, f: nat)
  {
    && (forall i | HasPdpt(s.mem, root, i) :: Referenced(s, Pdpt(s.mem, root, i), f))
    && (forall i, j | HasPd(s.mem, root, i, j) :: Referenced(s, Pd(s.mem, root, i, j), f))
  }

  /** Every table reached from `root` is referenced. */
  ghost predicate Populated(s: Paging, root: nat)
  {
    PopulatedBut(s, root, root)
  }

  // --- what a run of map adds ---------------------------------------------------------------------

  /** The tables of `s0` are where they were, and every other marked frame of `s` is a new table. */
  ghost predicate Grew(s0: Paging, s: Paging, root: nat)
  {
    && s.refs.Keys == s0.refs.Keys && s0.taken <= s.taken
    && (forall i | HasPdpt(s0.mem, root, i) :: HasPdpt(s.mem, root, i) && Pdpt(s.mem, root, i) == Pdpt(s0.mem, root, i))
    && (forall i, j | HasPd(s0.mem, root, i, j) :: HasPd(s.mem, root, i, j) && Pd(s.mem, root, i, j) == Pd(s0.mem, root, i, j))
    && (forall i | HasPdpt(s.mem, root, i) && !HasPdpt(s0.mem, root, i) :: Pdpt(s.mem, root, i) !in s0.taken)
    && (forall i, j | HasPd(s.mem, root, i, j) && !HasPd(s0.mem, root, i, j) :: Pd(s.mem, root, i, j) !in s0.taken)
    && (forall f | f in s.taken && f !in s0.taken :: TreeFrame(s.mem, root, f))
    && (forall f | f in s.refs && !TreeFrame(s.mem, root, f) :: f in s0.refs && s.refs[f] == s0.refs[f])
  }

  lemma TreeFramesKept(m: Memory, m': Memory, root: nat)
    requires forall i | HasPdpt(m, root, i) :: HasPdpt(m', root, i) && Pdpt(m', root, i) == Pdpt(m, root, i)
    requires forall i, j | HasPd(m, root, i, j) :: HasPd(m', root, i, j) && Pd(m', root, i, j) == Pd(m, root, i, j)
    ensures forall f | TreeFrame(m, root, f) :: TreeFrame(m', root, f)
  {
  }

  lemma GrewTransitive(s0: Paging, s: Paging, s': Paging, root: nat)
    requires Grew(s0, s, root) && Grew(s, s', root)
    ensures Grew(s0, s', root)
  {
    TreeFramesKept(s.mem, s'.mem, root);
    forall i | HasPdpt(s'.mem, root, i) && !HasPdpt(s0.mem, root, i)
      ensures Pdpt(s'.mem, root, i) !in s0.taken
    {
      if HasPdpt(s.mem, root, i) {
        assert Pdpt(s'.mem, root, i) == Pdpt(s.mem, root, i);
      }
    }
    forall i, j | HasPd(s'.mem, root, i, j) && !HasPd(s0.mem, root, i, j)
      ensures Pd(s'.mem, root, i, j) !in s0.taken
    {
      if HasPd(s.mem, root, i, j) {
        assert Pd(s'.mem, root, i, j) == Pd(s.mem, root, i, j);
      }
    }
  }

  lemma AddPdptGrows(s: Paging, root: nat, i: nat)
    requires Wellformed(s, root) && i < 512 && !HasPdpt(s.mem, root, i) && AddPdpt(s, root, i).Some?
    ensures Grew(s, AddPdpt(s, root, i).value, root)
  {
    var p := LowestFree(s, s.start).value;
    var s' := AddPdpt(s, root, i).value;
    TableEntryLinks(p);
    LinkPdptShape(s.mem, s.taken, root, i, p, TableEntry(p));
    assert HasPdpt(s'.mem, root, i) && Pdpt(s'.mem, root, i) == p;
    assert TreeFrame(s'.mem, root, p);
  }

  lemma {:induction false} AddPdptPopulates(s: Paging, root: nat, i: nat)
    requires Wellformed(s, root) && i < 512 && !HasPdpt(s.mem, root, i) && AddPdpt(s, root, i).Some? && Populated(s, root)
    ensures PopulatedBut(AddPdpt(s, root, i).value, root, LowestFree(s, s.start).value)
  {
    var p := LowestFree(s, s.start).value;
    TableEntryLinks(p);
    LinkPdptShape(s.mem, s.taken, root, i, p, TableEntry(p));
  }

  lemma SamePdpts(m: Memory, m': Memory, root: nat)
    requires forall x :: Entry(m', root, x) == Entry(m, root, x)
    ensures forall x :: HasPdpt(m', root, x) == HasPdpt(m, root, x)
    ensures forall x :: Pdpt(m', root, x) == Pdpt(m, root, x)
  {
  }

  lemma AddPdGrows(s: Paging, root: nat, i: nat, j: nat)
    requires Wellformed(s, root) && j < 512 && HasPdpt(s.mem, root, i) && !HasPd(s.mem, root, i, j)
    requires AddPd(s, root, i, j).Some?
    ensures Grew(s, AddPd(s, root, i, j).value, root)
  {
    var d := LowestFree(s, s.start).value;
    var s' := AddPd(s, root, i, j).value;
    TableEntryLinks(d);
    LinkPdShape(s.mem, s.taken, root, i, j, d, TableEntry(d));
    SamePdpts(s.mem, s'.mem, root);
    assert HasPd(s'.mem, root, i, j) && Pd(s'.mem, root, i, j) == d;
    assert TreeFrame(s'.mem, root, d);
    assert HasPdpt(s'.mem, root, i) && TreeFrame(s'.mem, root, Pdpt(s.mem, root, i));
  }

  lemma AddPdPopulates(s: Paging, root: nat, i: nat, j: nat)
    requires Wellformed(s, root) && j < 512 && HasPdpt(s.mem, root, i) && !HasPd(s.mem, root, i, j)
    requires AddPd(s, root, i, j).Some? && PopulatedBut(s, root, Pdpt(s.mem, root, i))
    requires Pdpt(s.mem, root, i) in s.refs && s.refs[Pdpt(s.mem, root, i)] <= 512
    ensures PopulatedBut(AddPd(s, root, i, j).value, root, LowestFree(s, s.start).value)
  {
    var d := LowestFree(s, s.start).value;
    var p := Pdpt(s.mem, root, i);
    TableEntryLinks(d);
    LinkPdShape(s.mem, s.taken, root, i, j, d, TableEntry(d));
    NewPdPopulates(s, AddPd(s, root, i, j).value, root, i, j, p, d);
  }

  lemma NewPdPopulates(s: Paging, s': Paging, root: nat, i: nat, j: nat, p: nat, d: nat)
    requires PopulatedBut(s, root, p) && p in s.refs && s'.refs == s.refs[p := (s.refs[p] + 1) % 0x1_0000] && s.refs[p] <= 512
    requires forall x :: Entry(s'.mem, root, x) == Entry(s.mem, root, x)
    requires forall x, y :: HasPd(s'.mem, root, x, y) <==> HasPd(s.mem, root, x, y) || (x == i && y == j)
    requires forall x, y | HasPd(s'.mem, root, x, y) :: Pd(s'.mem, root, x, y) == if x == i && y == j then d else Pd(s.mem, root, x, y)
    requires d in s.refs
    ensures PopulatedBut(s', root, d)
  {
    SamePdpts(s.mem, s'.mem, root);
    forall x | HasPdpt(s'.mem, root, x)
      ensures Referenced(s', Pdpt(s'.mem, root, x), d)
    {
      assert Referenced(s, Pdpt(s.mem, root, x), p);
    }
    forall x, y | HasPd(s'.mem, root, x, y)
      ensures Referenced(s', Pd(s'.mem, root, x, y), d)
    {
      if x != i || y != j {
        assert Referenced(s, Pd(s.mem, root, x, y), p);
      }
    }
  }

  lemma PutLeafGrows(s: Paging, root: nat, i: nat, j: nat, k: nat, e: Word)
    requires Wellformed(s, root) && HasPd(s.mem, root, i, j) && k < 512
    ensures Grew(s, PutLeaf(s, root, i, j, k, e), root)
  {
    var s' := PutLeaf(s, root, i, j, k, e);
    WriteLeafShape(s.mem, s.taken, root, i, j, k, e);
    SamePdpts(s.mem, s'.mem, root);
    assert HasPd(s'.mem, root, i, j) && TreeFrame(s'.mem, root, Pd(s.mem, root, i, j));
  }

  lemma PutLeafPopulates(s: Paging, root: nat, i: nat, j: nat, k: nat, e: Word)
    requires Wellformed(s, root) && HasPd(s.mem, root, i, j) && k < 512 && PopulatedBut(s, root, Pd(s.mem, root, i, j))
    requires Pd(s.mem, root, i, j) in s.refs && s.refs[Pd(s.mem, root, i, j)] <= 512
    ensures Populated(PutLeaf(s, root, i, j, k, e), root)
  {
    var d := Pd(s.mem, root, i, j);
    var s' := PutLeaf(s, root, i, j, k, e);
    WriteLeafShape(s.mem, s.taken, root, i, j, k, e);
    SamePdpts(s.mem, s'.mem, root);
  }

  /** The first step of `map` adds no more than a PDPT, which is still empty. */
  lemma EnsurePdptGrows(s: Paging, root: nat, i: nat, j: nat)
    requires Inv(s, root) && Populated(s, root) && i < 512 && EnsurePdpt(s, root, i).Some?
    ensures var s' := EnsurePdpt(s, root, i).value;
      && Inv(s', root) && Grew(s, s', root) && HasPdpt(s'.mem, root, i)
      && PopulatedBut(s', root, Pdpt(s'.mem, root, i))
      && (HasPd(s'.mem, root, i, j) ==> Populated(s', root))
  {
    EnsurePdptEffect(s, root, i);
    if !HasPdpt(s.mem, root, i) {
      AddPdptGrows(s, root, i);
      AddPdptPopulates(s, root, i);
      TableEntryLinks(LowestFree(s, s.start).value);
      LinkPdptShape(s.mem, s.taken, root, i, LowestFree(s, s.start).value, TableEntry(LowestFree(s, s.start).value));
    }
  }

  lemma EnsurePdGrows(s: Paging, root: nat, i: nat, j: nat)
    requires Inv(s, root) && j < 512 && HasPdpt(s.mem, root, i) && EnsurePd(s, root, i, j).Some?
    requires PopulatedBut(s, root, Pdpt(s.mem, root, i)) && (HasPd(s.mem, root, i, j) ==> Populated(s, root))
    ensures var s' := EnsurePd(s, root, i, j).value;
      && Inv(s', root) && Grew(s, s', root) && HasPd(s'.mem, root, i, j)
      && PopulatedBut(s', root, Pd(s'.mem, root, i, j))
  {
    EnsurePdEffect(s, root, i, j);
    if !HasPd(s.mem, root, i, j) {
      AddPdGrows(s, root, i, j);
      assert CountedAt(s, Pdpt(s.mem, root, i));
      CountBound(s.mem[Pdpt(s.mem, root, i)]);
      AddPdPopulates(s, root, i, j);
      TableEntryLinks(LowestFree(s, s.start).value);
      LinkPdShape(s.mem, s.taken, root, i, j, LowestFree(s, s.start).value, TableEntry(LowestFree(s, s.start).value));
    }
  }

  /** One completing `map`: the tables it adds are new frames, and none is left empty. */
  lemma MapEntryGrows(s: Paging, root: nat, i: nat, j: nat, k: nat, e: Word, s': Paging)
    requires Inv(s, root) && Populated(s, root) && i < 512 && j < 512 && k < 512
    requires MapSteps(s, root, i, j, k, e) == Some(s')
    ensures Grew(s, s', root) && Populated(s', root)
  {
    EnsurePdptGrows(s, root, i, j);
    var s1 := EnsurePdpt(s, root, i).value;
    EnsurePdGrows(s1, root, i, j);
    var s2 := EnsurePd(s1, root, i, j).value;
    PutLeafGrows(s2, root, i, j, k, e);
    assert CountedAt(s2, Pd(s2.mem, root, i, j));
    CountBound(s2.mem[Pd(s2.mem, root, i, j)]);
    PutLeafPopulates(s2, root, i, j, k, e);
    GrewTransitive(s, s1, s2, root);
    GrewTransitive(s, s2, s', root);
  }

  lemma {:induction false} MapRunGrows(trace: seq<Paging>, root: nat, rs: seq<Request>, n: nat)
    requires MapRun(trace, root, rs) && Inv(trace[0], root) && Populated(trace[0], root) && n <= |rs|
    ensures Inv(trace[n], root) && Grew(trace[0], trace[n], root) && Populated(trace[n], root)
  {
    MapRunKeepsInv(trace, root, rs, n);
    if n > 0 {
      MapRunGrows(trace, root, rs, n - 1);
      var r := rs[n - 1];
      assert Maps(trace[n - 1], root, r, trace[n - 1 + 1]);
      PageIndices(r.v);
      MapIsSteps(trace[n - 1], root, I4(r.v), I3(r.v), I2(r.v), PageEntry(r.p, r.flags));
      MapEntryGrows(trace[n - 1], root, I4(r.v), I3(r.v), I2(r.v), PageEntry(r.p, r.flags), trace[n]);
      GrewTransitive(trace[0], trace[n - 1], trace[n], root);
    }
  }

  // --- counting by live pages ----------------------------------------------------------------------

  lemma LeafOfPage(m: Memory, root: nat, i: nat, j: nat, k: nat)
    requires i < 512 && j < 512 && k < 512
    ensures PageNumber(i, j, k) in Translation(m, root) <==> Present(Leaf(m, root, i, j, k))
  {
    PageNumberIndices(i, j, k);
  }

  lemma SlotsOfTable(s: Paging, root: nat, i: nat, j: nat)
    requires Inv(s, root) && i < 512 && j < 512
    ensures
      var slots := LiveSlots(i, j, Translation(s.mem, root).Keys);
      if HasPd(s.mem, root, i, j) then slots == PresentSlots(s.mem[Pd(s.mem, root, i, j)]) else slots == {}
  {
    forall z: nat | z < 512
      ensures z in LiveSlots(i, j, Translation(s.mem, root).Keys) <==> Present(Leaf(s.mem, root, i, j, z))
    {
      LeafOfPage(s.mem, root, i, j, z);
    }
  }

  lemma PdsOfTable(s: Paging, root: nat, i: nat)
    requires Inv(s, root) && Populated(s, root) && i < 512
    ensures
      var pds := LivePds(i, Translation(s.mem, root).Keys);
      if HasPdpt(s.mem, root, i) then pds == PresentSlots(s.mem[Pdpt(s.mem, root, i)]) else pds == {}
  {
    forall y: nat | y < 512
      ensures y in LivePds(i, Translation(s.mem, root).Keys) <==> HasPd(s.mem, root, i, y)
    {
      SlotsOfTable(s, root, i, y);
      if HasPd(s.mem, root, i, y) {
        assert CountedAt(s, Pd(s.mem, root, i, y));
      }
    }
  }

  /** With every page in use, the counts are those of the invariant. */
  lemma AllRemaining(s: Paging, root: nat)
    requires Inv(s, root) && Populated(s, root)
    ensures Remaining(s, s, root, Translation(s.mem, root).Keys)
  {
    var live := Translation(s.mem, root).Keys;
    forall i | HasPdpt(s.mem, root, i)
      ensures CountsLive(s, Pdpt(s.mem, root, i), |LivePds(i, live)|)
    {
      assert CountedAt(s, Pdpt(s.mem, root, i));
      PdsOfTable(s, root, i);
    }
    forall i, j | HasPd(s.mem, root, i, j)
      ensures CountsLive(s, Pd(s.mem, root, i, j), |LiveSlots(i, j, live)|)
    {
      assert CountedAt(s, Pd(s.mem, root, i, j));
      SlotsOfTable(s, root, i, j);
    }
  }

  // --- unmapping a list of pages ---------------------------------------------------------------------

  function UnmapAll(s: Paging, root: nat, vs: seq<nat>): Option<Unmapped>
    requires Tree(s.mem, s.refs.Keys, root)
    decreases |vs|
  {
    if vs == [] then Some(Unmapped(s, true, []))
    else
      var r := UnmapPage(s, root, vs[0]);
      if r.None? then None
      else
        var rest := UnmapAll(r.value.s, root, vs[1..]);
        if rest.None? then None
        else Some(Unmapped(rest.value.s, r.value.found && rest.value.found, r.value.freed + rest.value.freed))
  }

  /** Aligned addresses of distinct pages, all of them in `live`. */
  ghost predicate Pages(vs: seq<nat>, live: set<nat>)
  {
    && (forall a: nat | a < |vs| :: vs[a] % PAGE == 0 && vs[a] < VIRTUAL_END && vs[a] / PAGE in live)
    && (forall a: nat, b: nat | a < b < |vs| :: vs[a] != vs[b])
  }

  function PagesOf(vs: seq<nat>): set<nat>
  {
    set v | v in vs :: v / PAGE
  }

  lemma PageDigits(g: nat)
    ensures g == PageNumber(g / 0x4_0000, g / 512 % 512, g % 512)
  {
    var q := g / 512;
    assert g == 512 * q + g % 512;
    assert q == 512 * (q / 512) + q % 512;
    assert q / 512 == g / 0x4_0000;
  }

  lemma AddressPage(v: nat)
    ensures v / PAGE == PageNumber(I4(v), I3(v), I2(v))
  {
    PageIndices(v);
    PageDigits(v / PAGE);
  }

  lemma PageOfAddress(m: Memory, root: nat, v: nat)
    requires v < VIRTUAL_END && v / PAGE in Translation(m, root)
    ensures v / PAGE == PageNumber(I4(v), I3(v), I2(v)) && Present(Leaf(m, root, I4(v), I3(v), I2(v)))
  {
    AddressPage(v);
    assert I4(v) < 512 by { PageIndices(v); }
    LeafOfPage(m, root, I4(v), I3(v), I2(v));
  }

  lemma UnmapOne(full: Paging, s: Paging, root: nat, live: set<nat>, v: nat)
    requires Tree(s.mem, s.refs.Keys, root) && Remaining(full, s, root, live)
    requires v % PAGE == 0 && v < VIRTUAL_END && v / PAGE in live && live <= Translation(s.mem, root).Keys
    ensures Frees(s, UnmapPage(s, root, v)) && Remaining(full, UnmapPage(s, root, v).value.s, root, live - {v / PAGE})
  {
    PageOfAddress(s.mem, root, v);
    UnmapStep(full, s, root, live, I4(v), I3(v), I2(v));
  }

  lemma PagesRest(vs: seq<nat>, live: set<nat>)
    requires vs != [] && Pages(vs, live)
    ensures Pages(vs[1..], live - {vs[0] / PAGE})
    ensures live - PagesOf(vs) == live - {vs[0] / PAGE} - PagesOf(vs[1..])
  {
    var v, rest := vs[0], vs[1..];
    forall a: nat | a < |rest|
      ensures rest[a] % PAGE == 0 && rest[a] < VIRTUAL_END && rest[a] / PAGE in live - {v / PAGE}
    {
      assert rest[a] == vs[a + 1] && vs[0] != vs[a + 1];
    }
    forall g
      ensures g in PagesOf(vs) <==> g == v / PAGE || g in PagesOf(rest)
    {
      if g in PagesOf(rest) {
        var w :| w in rest && w / PAGE == g;
        assert w in vs;
      }
      if g in PagesOf(vs) {
        var w :| w in vs && w / PAGE == g;
        assert w == v || w in rest;
      }
      assert v in vs;
    }
  }

  lemma {:induction false} UnmapAllRemaining(full: Paging, s: Paging, root: nat, live: set<nat>, vs: seq<nat>)
    requires Tree(s.mem, s.refs.Keys, root) && Remaining(full, s, root, live)
    requires Pages(vs, live) && live <= Translation(s.mem, root).Keys
    ensures Frees(s, UnmapAll(s, root, vs)) && Remaining(full, UnmapAll(s, root, vs).value.s, root, live - PagesOf(vs))
    decreases |vs|
  {
    if vs == [] {
      assert live - PagesOf(vs) == live;
    } else {
      UnmapOne(full, s, root, live, vs[0]);
      PagesRest(vs, live);
      var u := UnmapPage(s, root, vs[0]).value;
      UnmapAllRemaining(full, u.s, root, live - {vs[0] / PAGE}, vs[1..]);
      FreesBoth(s, UnmapPage(s, root, vs[0]), UnmapAll(u.s, root, vs[1..]), UnmapAll(s, root, vs));
    }
  }

  lemma FreesBoth(s: Paging, r: Option<Unmapped>, rest: Option<Unmapped>, all: Option<Unmapped>)
    requires Frees(s, r) && Frees(r.value.s, rest)
    requires all == Some(Unmapped(rest.value.s, r.value.found && rest.value.found, r.value.freed + rest.value.freed))
    ensures Frees(s, all)
  {
    Concatenated(r.value.freed, rest.value.freed, r.value.s.taken, s.taken);
  }

  lemma Concatenated(a: seq<nat>, b: seq<nat>, between: set<nat>, before: set<nat>)
    requires NoDuplicates(a) && NoDuplicates(b) && Elements(a) <= before && Elements(b) <= between
    requires between == before - Elements(a)
    ensures NoDuplicates(a + b) && Elements(a + b) == Elements(a) + Elements(b)
  {
    forall x: nat, y: nat | x < y < |a + b|
      ensures (a + b)[x] != (a + b)[y]
    {
      if x < |a| <= y {
        assert a[x] in Elements(a) && b[y - |a|] in Elements(b);
      }
    }
  }

  // --- the round trip -------------------------------------------------------------------------------

  /** Tables that are missing have no live pages, frames that are free no references. */
  ghost predicate NothingElse(s: Paging, root: nat, live: set<nat>)
  {
    && (forall i: nat | i < 512 && !HasPdpt(s.mem, root, i) :: LivePds(i, live) == {})
    && (forall i: nat, j: nat | i < 512 && j < 512 && !HasPd(s.mem, root, i, j) :: LiveSlots(i, j, live) == {})
    && (forall f | f in s.refs && f !in s.taken :: s.refs[f] == 0)
  }

  lemma NothingElseLive(s: Paging, root: nat)
    requires Inv(s, root) && Populated(s, root)
    ensures NothingElse(s, root, Translation(s.mem, root).Keys)
  {
    var live := Translation(s.mem, root).Keys;
    forall i: nat | i < 512 && !HasPdpt(s.mem, root, i)
      ensures LivePds(i, live) == {}
    {
      PdsOfTable(s, root, i);
    }
    forall i: nat, j: nat | i < 512 && j < 512 && !HasPd(s.mem, root, i, j)
      ensures LiveSlots(i, j, live) == {}
    {
      SlotsOfTable(s, root, i, j);
    }
  }

  /** With only the old pages in use, every frame has its old mark and count. */
  lemma RemainingIsRestored(s0: Paging, s1: Paging, s: Paging, root: nat, live: set<nat>)
    requires Remaining(s0, s0, root, live) && NothingElse(s0, root, live) && Grew(s0, s1, root)
    requires Remaining(s1, s, root, live) && (forall f | f in s1.taken :: f in s1.refs)
    ensures s.taken == s0.taken && s.refs == s0.refs
  {
    forall f | f in s.refs
      ensures (f in s.taken <==> f in s0.taken) && s.refs[f] == s0.refs[f]
    {
      if i :| HasPdpt(s1.mem, root, i) && f == Pdpt(s1.mem, root, i) {
        PdptRestored(s0, s1, s, root, live, i);
      } else if i, j :| HasPd(s1.mem, root, i, j) && f == Pd(s1.mem, root, i, j) {
        PdRestored(s0, s1, s, root, live, i, j);
      } else {
        assert !TreeFrame(s1.mem, root, f);
      }
    }
  }

  lemma PdptRestored(s0: Paging, s1: Paging, s: Paging, root: nat, live: set<nat>, i: nat)
    requires PdptsCounted(s0, root, live) && NothingElse(s0, root, live) && Grew(s0, s1, root) && HasPdpt(s1.mem, root, i)
    requires PdptsCounted(s, root, live) && s.mem == s1.mem && s.refs.Keys == s1.refs.Keys
    ensures var f := Pdpt(s1.mem, root, i); f in s.refs && f in s0.refs && (f in s.taken <==> f in s0.taken) && s.refs[f] == s0.refs[f]
  {
    assert CountsLive(s, Pdpt(s.mem, root, i), |LivePds(i, live)|);
    if HasPdpt(s0.mem, root, i) {
      assert CountsLive(s0, Pdpt(s0.mem, root, i), |LivePds(i, live)|);
    }
  }

  lemma PdRestored(s0: Paging, s1: Paging, s: Paging, root: nat, live: set<nat>, i: nat, j: nat)
    requires PdsCounted(s0, root, live) && NothingElse(s0, root, live) && Grew(s0, s1, root) && HasPd(s1.mem, root, i, j)
    requires PdsCounted(s, root, live) && s.mem == s1.mem && s.refs.Keys == s1.refs.Keys
    ensures var f := Pd(s1.mem, root, i, j); f in s.refs && f in s0.refs && (f in s.taken <==> f in s0.taken) && s.refs[f] == s0.refs[f]
  {
    assert CountsLive(s, Pd(s.mem, root, i, j), |LiveSlots(i, j, live)|);
    if HasPd(s0.mem, root, i, j) {
      assert CountsLive(s0, Pd(s0.mem, root, i, j), |LiveSlots(i, j, live)|);
    }
  }

  /** The physical frames are more than the marked ones, and the tables are as separate among them. */
  lemma TreeInRange(s: Paging, root: nat)
    requires Wellformed(s, root)
    ensures Tree(s.mem, s.refs.Keys, root)
  {
  }

  function RequestPages(rs: seq<Request>): set<nat>
  {
    set r | r in rs :: r.v / PAGE
  }

  /** The pages mapped after a run are the old ones and, apart from them, those of the requests. */
  lemma {:induction false} MappedPages(trace: seq<Paging>, root: nat, rs: seq<Request>, n: nat)
    requires MapRun(trace, root, rs) && Inv(trace[0], root) && n <= |rs|
    ensures Translation(trace[0].mem, root).Keys !! RequestPages(rs[..n])
    ensures Translation(trace[n].mem, root).Keys == Translation(trace[0].mem, root).Keys + RequestPages(rs[..n])
  {
    if n > 0 {
      MappedPages(trace, root, rs, n - 1);
      MapRunKeepsInv(trace, root, rs, n - 1);
      var r := rs[n - 1];
      assert Maps(trace[n - 1], root, r, trace[n - 1 + 1]);
      MapsKeepsInv(trace[n - 1], root, r, trace[n]);
      LastRequest(rs, n);
    }
  }

  lemma LastRequest(rs: seq<Request>, n: nat)
    requires 0 < n <= |rs|
    ensures RequestPages(rs[..n]) == RequestPages(rs[..n - 1]) + {rs[n - 1].v / PAGE}
  {
    assert rs[..n] == rs[..n - 1] + [rs[n - 1]];
  }

  lemma PagesToUnmap(vs: seq<nat>, live: set<nat>)
    requires NoDuplicates(vs) && (forall v | v in vs :: v % PAGE == 0 && v < VIRTUAL_END) && PagesOf(vs) <= live
    ensures Pages(vs, live)
  {
    forall a: nat | a < |vs|
      ensures vs[a] % PAGE == 0 && vs[a] < VIRTUAL_END && vs[a] / PAGE in live
    {
      assert vs[a] in vs && vs[a] / PAGE in PagesOf(vs);
    }
  }

  /**
    A run of `map` and then one `unmap` of each of its pages, in any order: no call halts,
    every frame the run allocated is freed exactly once, and the tracking bitmap and the
    reference counts are what they were.
   */
  lemma MapThenUnmapRestores(trace: seq<Paging>, root: nat, rs: seq<Request>, vs: seq<nat>)
    requires MapRun(trace, root, rs) && Inv(trace[0], root) && Populated(trace[0], root)
    requires NoDuplicates(vs) && (forall v | v in vs :: v % PAGE == 0 && v < VIRTUAL_END)
    requires PagesOf(vs) == RequestPages(rs)
    ensures Tree(trace[|rs|].mem, trace[|rs|].refs.Keys, root)
    ensures
      var r := UnmapAll(trace[|rs|], root, vs);
      && r.Some? && r.value.found
      && r.value.s.taken == trace[0].taken && r.value.s.refs == trace[0].refs
      && NoDuplicates(r.value.freed) && Elements(r.value.freed) == trace[|rs|].taken - trace[0].taken
  {
    var s0, s1 := trace[0], trace[|rs|];
    MapRunGrows(trace, root, rs, |rs|);
    MappedPages(trace, root, rs, |rs|);
    assert rs[..|rs|] == rs;
    UnmapRestores(s0, s1, root, vs);
  }

  lemma UnmapRestores(s0: Paging, s1: Paging, root: nat, vs: seq<nat>)
    requires Inv(s0, root) && Populated(s0, root) && Inv(s1, root) && Populated(s1, root) && Grew(s0, s1, root)
    requires NoDuplicates(vs) && (forall v | v in vs :: v % PAGE == 0 && v < VIRTUAL_END)
    requires Translation(s0.mem, root).Keys !! PagesOf(vs)
    requires Translation(s1.mem, root).Keys == Translation(s0.mem, root).Keys + PagesOf(vs)
    ensures Tree(s1.mem, s1.refs.Keys, root)
    ensures
      var r := UnmapAll(s1, root, vs);
      && r.Some? && r.value.found
      && r.value.s.taken == s0.taken && r.value.s.refs == s0.refs
      && NoDuplicates(r.value.freed) && Elements(r.value.freed) == s1.taken - s0.taken
  {
    var live, old0 := Translation(s1.mem, root).Keys, Translation(s0.mem, root).Keys;
    TreeInRange(s1, root);
    AllRemaining(s1, root);
    PagesToUnmap(vs, live);
    UnmapAllRemaining(s1, s1, root, live, vs);
    assert live - PagesOf(vs) == old0;
    var r := UnmapAll(s1, root, vs);
    AllRemaining(s0, root);
    NothingElseLive(s0, root);
    RemainingIsRestored(s0, s1, r.value.s, root, old0);
    assert Elements(r.value.freed) == s1.taken - s0.taken;
  }
}
