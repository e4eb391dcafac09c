/**
  One `unmap` among others: the counts stay exact for the pages still in use, and the tables
  it frees are those that no such page needs.
 */
module PageConservation {
  import opened Words
  import opened Wrappers
  import opened PageModel
  import opened PageTranslation

  // --- live pages of a table ------------------------------------------------------------------

  function PageNumber(i: nat, j: nat, k: nat): nat
  {
    i * 0x4_0000 + j * 512 + k
  }

  /** The entries of PD (i, j) whose page is still in use. */
  function LiveSlots(i: nat, j: nat, live: set<nat>): set<nat>
  {
    set z: nat | z < 512 && PageNumber(i, j, z) in live
  }

  /** The PDs of PDPT i that still have such an entry. */
  function LivePds(i: nat, live: set<nat>): set<nat>
  {
    set y: nat | y < 512 && LiveSlots(i, y, live) != {}
  }

  lemma PageNumberInjective(i: nat, j: nat, k: nat, i': nat, j': nat, k': nat)
    requires j < 512 && k < 512 && j' < 512 && k' < 512
    requires PageNumber(i, j, k) == PageNumber(i', j', k')
    ensures i == i' && j == j' && k == k'
  {
    PageNumberIndices(i, j, k);
    PageNumberIndices(i', j', k');
  }

  lemma PageNumberIndices(i: nat, j: nat, k: nat)
    requires j < 512 && k < 512
    ensures var g := PageNumber(i, j, k); g / 0x4_0000 == i && g / 512 % 512 == j && g % 512 == k
    ensures i < 512 ==> PageNumber(i, j, k) < PAGES
  {
    var g := PageNumber(i, j, k);
    DivModUnique(g, 512, i * 512 + j, k);
    DivModUnique(i * 512 + j, 512, i, j);
    DivModUnique(g, 0x4_0000, i, j * 512 + k);
  }

  lemma SlotsWithout(i: nat, j: nat, k: nat, live: set<nat>)
    requires j < 512 && k < 512 && PageNumber(i, j, k) in live
    ensures LiveSlots(i, j, live - {PageNumber(i, j, k)}) == LiveSlots(i, j, live) - {k}
    ensures k in LiveSlots(i, j, live)
    ensures |LiveSlots(i, j, live - {PageNumber(i, j, k)})| == |LiveSlots(i, j, live)| - 1
    ensures forall x: nat, y: nat | y < 512 && (x != i || y != j) ::
              LiveSlots(x, y, live - {PageNumber(i, j, k)}) == LiveSlots(x, y, live)
  {
    var live' := live - {PageNumber(i, j, k)};
    forall x: nat, y: nat, z: nat | y < 512 && z < 512
      ensures PageNumber(x, y, z) in live' <==> PageNumber(x, y, z) in live && !(x == i && y == j && z == k)
    {
      if PageNumber(x, y, z) == PageNumber(i, j, k) {
        PageNumberInjective(x, y, z, i, j, k);
      }
    }
    forall x: nat, y: nat | y < 512 && (x != i || y != j)
      ensures LiveSlots(x, y, live') == LiveSlots(x, y, live)
    {
    }
    assert LiveSlots(i, j, live') == LiveSlots(i, j, live) - {k};
  }

  lemma PdsWithout(i: nat, j: nat, k: nat, live: set<nat>)
    requires j < 512 && k < 512 && PageNumber(i, j, k) in live
    ensures var live' := live - {PageNumber(i, j, k)};
      && j in LivePds(i, live)
      && LivePds(i, live') == (if LiveSlots(i, j, live') == {} then LivePds(i, live) - {j} else LivePds(i, live))
      && forall x: nat | x != i :: LivePds(x, live') == LivePds(x, live)
  {
    SlotsWithout(i, j, k, live);
    var live' := live - {PageNumber(i, j, k)};
    assert forall y: nat | y < 512 && y != j :: LiveSlots(i, y, live') == LiveSlots(i, y, live);
    forall x: nat | x != i
      ensures LivePds(x, live') == LivePds(x, live)
    {
      assert forall y: nat | y < 512 :: LiveSlots(x, y, live') == LiveSlots(x, y, live);
    }
  }

  // --- the state between two unmaps -------------------------------------------------------------

  /** Frame `p` has `live` references, and is marked as long as there are any. */
  predicate CountsLive(s: Paging, p: nat, live: nat)
  {
    p in s.refs && s.refs[p] == live && (p in s.taken <==> live > 0)
  }

  ghost predicate TreeFrame(m: Memory, root: nat, f: nat)
  {
    || (exists i :: HasPdpt(m, root, i) && f == Pdpt(m, root, i))
    || (exists i, j :: HasPd(m, root, i, j) && f == Pd(m, root, i, j))
  }

  ghost predicate PdptsCounted(s: Paging, root: nat, live: set<nat>)
  {
    forall i | HasPdpt(s.mem, root, i) :: CountsLive(s, Pdpt(s.mem, root, i), |LivePds(i, live)|)
  }

  ghost predicate PdsCounted(s: Paging, root: nat, live: set<nat>)
  {
    forall i, j | HasPd(s.mem, root, i, j) :: CountsLive(s, Pd(s.mem, root, i, j), |LiveSlots(i, j, live)|)
  }

  /** Frames that are no table reached from `root` are marked and counted in both alike. */
  ghost predicate SameElsewhere(full: Paging, s: Paging, root: nat)
  {
    forall f | f in s.refs && !TreeFrame(s.mem, root, f) ::
      s.refs.Keys == full.refs.Keys && s.refs[f] == full.refs[f] && (f in s.taken <==> f in full.taken)
  }

  /**
    `s` is what is left of `full` when only the pages `live` are in use: each table is
    referenced by its live entries and marked while it has one; other frames are as in `full`.
   */
  ghost predicate Remaining(full: Paging, s: Paging, root: nat, live: set<nat>)
  {
    && s == full.(refs := s.refs, taken := s.taken) && s.refs.Keys == full.refs.Keys && s.taken <= full.taken
    && PdptsCounted(s, root, live) && PdsCounted(s, root, live) && SameElsewhere(full, s, root)
  }

  function Elements(fs: seq<nat>): set<nat>
  {
    set f | f in fs
  }

  ghost predicate NoDuplicates(fs: seq<nat>)
  {
    forall a: nat, b: nat | a < b < |fs| :: fs[a] != fs[b]
  }

  /** The counters and marks after an `unmap` of an entry of PD `d` in PDPT `p`. */
  ghost predicate Released(s: Paging, u: Unmapped, p: nat, d: nat)
    requires p in s.refs && d in s.refs
  {
    var n, q := s.refs[d], s.refs[p];
    && u.s.refs.Keys == s.refs.Keys
    && (forall f | f in s.refs && f != p && f != d :: u.s.refs[f] == s.refs[f] && (f in u.s.taken <==> f in s.taken))
    && u.s.refs[d] + 1 == n && (d in u.s.taken <==> n > 1)
    && (if n > 1 then u.s.refs[p] == q else u.s.refs[p] + 1 == q) && (p in u.s.taken <==> n > 1 || q > 1)
    && NoDuplicates(u.freed) && Elements(u.freed) <= s.taken && u.s.taken == s.taken - Elements(u.freed)
  }

  lemma UnmapReleases(s: Paging, root: nat, i: nat, j: nat, k: nat)
    requires Tree(s.mem, s.refs.Keys, root) && Present(Leaf(s.mem, root, i, j, k))
    requires var p, d := Pdpt(s.mem, root, i), Pd(s.mem, root, i, j);
      s.refs[p] > 0 && s.refs[d] > 0 && p in s.taken && d in s.taken
    ensures var r := UnmapEntry(s, root, i, j, k);
      r.Some? && r.value.found && Released(s, r.value, Pdpt(s.mem, root, i), Pd(s.mem, root, i, j))
  {
    var p, d := Pdpt(s.mem, root, i), Pd(s.mem, root, i, j);
    assert p != d;
    var u := UnmapEntry(s, root, i, j, k).value;
    assert Elements([d]) == {d} && Elements([d, p]) == {d, p} && Elements([]) == {};
  }

  /** `r` is a success whose freed frames were marked, are distinct, and are no longer marked. */
  ghost predicate Frees(s: Paging, r: Option<Unmapped>)
  {
    && r.Some? && r.value.found
    && NoDuplicates(r.value.freed) && Elements(r.value.freed) <= s.taken
    && r.value.s.taken == s.taken - Elements(r.value.freed)
  }

  /** Unmapping a live page succeeds, and frees exactly the tables it empties. */
  lemma UnmapStep(full: Paging, s: Paging, root: nat, live: set<nat>, i: nat, j: nat, k: nat)
    requires Tree(s.mem, s.refs.Keys, root) && Remaining(full, s, root, live)
    requires j < 512 && k < 512 && PageNumber(i, j, k) in live && Present(Leaf(s.mem, root, i, j, k))
    ensures Frees(s, UnmapEntry(s, root, i, j, k))
    ensures Remaining(full, UnmapEntry(s, root, i, j, k).value.s, root, live - {PageNumber(i, j, k)})
  {
    TablesAreLive(full, s, root, live, i, j, k);
    UnmapReleases(s, root, i, j, k);
    ReleasedRemains(full, s, root, live, i, j, k, UnmapEntry(s, root, i, j, k).value);
  }

  lemma TablesAreLive(full: Paging, s: Paging, root: nat, live: set<nat>, i: nat, j: nat, k: nat)
    requires Tree(s.mem, s.refs.Keys, root) && Remaining(full, s, root, live)
    requires j < 512 && k < 512 && PageNumber(i, j, k) in live && HasPd(s.mem, root, i, j)
    ensures var p, d := Pdpt(s.mem, root, i), Pd(s.mem, root, i, j);
      s.refs[p] > 0 && s.refs[d] > 0 && p in s.taken && d in s.taken
  {
    SlotsWithout(i, j, k, live);
    PdsWithout(i, j, k, live);
    assert CountsLive(s, Pdpt(s.mem, root, i), |LivePds(i, live)|);
    assert CountsLive(s, Pd(s.mem, root, i, j), |LiveSlots(i, j, live)|);
    assert |LivePds(i, live) - {j}| == |LivePds(i, live)| - 1;
  }

  lemma ReleasedRemains(full: Paging, s: Paging, root: nat, live: set<nat>, i: nat, j: nat, k: nat, u: Unmapped)
    requires Tree(s.mem, s.refs.Keys, root) && Remaining(full, s, root, live)
    requires j < 512 && k < 512 && PageNumber(i, j, k) in live && HasPd(s.mem, root, i, j)
    requires Released(s, u, Pdpt(s.mem, root, i), Pd(s.mem, root, i, j))
    requires u.s == s.(refs := u.s.refs, taken := u.s.taken)
    ensures Remaining(full, u.s, root, live - {PageNumber(i, j, k)})
  {
    PdptsReleased(s, root, live, i, j, k, u);
    PdsReleased(s, root, live, i, j, k, u);
    assert SameElsewhere(full, u.s, root) by {
      assert TreeFrame(s.mem, root, Pdpt(s.mem, root, i)) && TreeFrame(s.mem, root, Pd(s.mem, root, i, j));
    }
  }

  lemma PdsReleased(s: Paging, root: nat, live: set<nat>, i: nat, j: nat, k: nat, u: Unmapped)
    requires Tree(s.mem, s.refs.Keys, root) && PdsCounted(s, root, live)
    requires j < 512 && k < 512 && PageNumber(i, j, k) in live && HasPd(s.mem, root, i, j)
    requires Released(s, u, Pdpt(s.mem, root, i), Pd(s.mem, root, i, j))
    requires u.s == s.(refs := u.s.refs, taken := u.s.taken)
    ensures PdsCounted(u.s, root, live - {PageNumber(i, j, k)})
  {
    var p, d := Pdpt(s.mem, root, i), Pd(s.mem, root, i, j);
    SlotsWithout(i, j, k, live);
    forall x, y | HasPd(s.mem, root, x, y)
      ensures CountsLive(u.s, Pd(s.mem, root, x, y), |LiveSlots(x, y, live - {PageNumber(i, j, k)})|)
    {
      assert y < 512 && Pd(s.mem, root, x, y) != p;
      assert CountsLive(s, Pd(s.mem, root, x, y), |LiveSlots(x, y, live)|);
      if x != i || y != j {
        assert Pd(s.mem, root, x, y) != d;
      }
    }
  }

  lemma PdptsReleased(s: Paging, root: nat, live: set<nat>, i: nat, j: nat, k: nat, u: Unmapped)
    requires Tree(s.mem, s.refs.Keys, root) && PdptsCounted(s, root, live) && PdsCounted(s, root, live)
    requires j < 512 && k < 512 && PageNumber(i, j, k) in live && HasPd(s.mem, root, i, j)
    requires Released(s, u, Pdpt(s.mem, root, i), Pd(s.mem, root, i, j))
    requires u.s == s.(refs := u.s.refs, taken := u.s.taken)
    ensures PdptsCounted(u.s, root, live - {PageNumber(i, j, k)})
  {
    var p, d := Pdpt(s.mem, root, i), Pd(s.mem, root, i, j);
    PdsWithout(i, j, k, live);
    SlotsWithout(i, j, k, live);
    assert CountsLive(s, d, |LiveSlots(i, j, live)|);
    assert |LivePds(i, live) - {j}| == |LivePds(i, live)| - 1;
    forall x | HasPdpt(s.mem, root, x)
      ensures CountsLive(u.s, Pdpt(s.mem, root, x), |LivePds(x, live - {PageNumber(i, j, k)})|)
    {
      assert CountsLive(s, Pdpt(s.mem, root, x), |LivePds(x, live)|);
      if x != i {
        assert Pdpt(s.mem, root, x) != p && Pdpt(s.mem, root, x) != d;
      }
    }
  }
}
