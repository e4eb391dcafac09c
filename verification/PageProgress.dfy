/** When `map` completes: exactly when the page is unmapped and there are frames for its tables. */
module PageProgress {
  import opened Words
  import opened PageModel
  import opened PageTranslation

  function FreeFrames(s: Paging): set<nat>
  {
    set f: nat | s.start <= f < s.end && f !in s.taken
  }

  /** The tables on the way to entry (i, j, k) that do not exist yet. */
  function MissingTables(s: Paging, root: nat, i: nat, j: nat): nat
  {
    if HasPd(s.mem, root, i, j) then 0 else if HasPdpt(s.mem, root, i) then 1 else 2
  }

  /** `alloc` has no frame exactly when all are taken; otherwise it takes one, and only that. */
  lemma AllocFrameTakesOne(s: Paging)
    ensures AllocFrame(s).None? <==> FreeFrames(s) == {}
    ensures AllocFrame(s).Some? ==>
              var (s', f) := AllocFrame(s).value;
              && f in FreeFrames(s) && FreeFrames(s') == FreeFrames(s) - {f} && |FreeFrames(s')| == |FreeFrames(s)| - 1
              && (forall g | g in FreeFrames(s) :: f <= g)
              && s'.taken == s.taken + {f} && s'.mem == s.mem[f := ZeroTable()] && s'.refs == s.refs
  {
    var r := LowestFree(s, s.start);
    if r.Some? {
      assert r.value in FreeFrames(s);
    }
  }

  lemma SameFree(s: Paging, s': Paging)
    requires s'.start == s.start && s'.end == s.end && s'.taken == s.taken
    ensures FreeFrames(s') == FreeFrames(s)
  {
  }

  lemma MapInPdptProgress(s: Paging, pdpt: nat, j: nat, k: nat, e: Word)
    requires Space(s) && pdpt in s.refs && j < 512 && k < 512
    requires var w := Entry(s.mem, pdpt, j); Present(w) ==> Target(w) in s.refs
    ensures
      var w := Entry(s.mem, pdpt, j);
      var r := MapInPdpt(s, pdpt, j, k, e);
      if Present(w) then
        && (r.None? <==> Present(Entry(s.mem, Target(w), k)))
        && (r.Some? ==> FreeFrames(r.value) == FreeFrames(s))
      else
        && (r.None? <==> FreeFrames(s) == {})
        && (r.Some? ==> |FreeFrames(r.value)| == |FreeFrames(s)| - 1)
  {
    AllocFrameTakesOne(s);
    var r := MapInPdpt(s, pdpt, j, k, e);
    if !Present(Entry(s.mem, pdpt, j)) && r.Some? {
      SameFree(AllocFrame(s).value.0, r.value);
    }
  }

  lemma MapFreshProgress(s: Paging, root: nat, i: nat, j: nat, k: nat, e: Word)
    requires Space(s) && root in s.mem && i < 512 && j < 512 && k < 512
    ensures var r := MapFresh(s, root, i, j, k, e);
      && (r.None? <==> |FreeFrames(s)| < 2)
      && (r.Some? ==> |FreeFrames(r.value)| == |FreeFrames(s)| - 2)
  {
    AllocFrameTakesOne(s);
    if AllocFrame(s).Some? {
      var s1 := AllocFrame(s).value.0;
      AllocFrameTakesOne(s1);
      var r := MapFresh(s, root, i, j, k, e);
      if r.Some? {
        SameFree(AllocFrame(s1).value.0, r.value);
      }
    }
  }

  lemma MapEntryProgress(s: Paging, root: nat, i: nat, j: nat, k: nat, e: Word)
    requires InRange(s, root) && i < 512 && j < 512 && k < 512
    ensures var r := MapEntry(s, root, i, j, k, e);
      && (r.None? <==> Present(Leaf(s.mem, root, i, j, k)) || |FreeFrames(s)| < MissingTables(s, root, i, j))
      && (r.Some? ==> |FreeFrames(r.value)| == |FreeFrames(s)| - MissingTables(s, root, i, j))
  {
    if HasPdpt(s.mem, root, i) {
      assert Present(Entry(s.mem, Pdpt(s.mem, root, i), j)) ==> HasPd(s.mem, root, i, j);
      MapInPdptProgress(s, Pdpt(s.mem, root, i), j, k, e);
    } else {
      MapFreshProgress(s, root, i, j, k, e);
    }
  }

  /**
    `map` halts exactly when an address is unaligned, the page is mapped already, or there are
    fewer free frames than missing tables; when it completes it uses as many as were missing.
   */
  lemma MapHaltsIff(s: Paging, root: nat, v: nat, p: Word, flags: Word)
    requires InRange(s, root) && v < VIRTUAL_END
    ensures var r := MapPage(s, root, v, p, flags);
      && (r.None? <==>
            || v % PAGE != 0 || p % PAGE != 0 || v / PAGE in Translation(s.mem, root)
            || |FreeFrames(s)| < MissingTables(s, root, I4(v), I3(v)))
      && (r.Some? ==> |FreeFrames(r.value)| == |FreeFrames(s)| - MissingTables(s, root, I4(v), I3(v)))
  {
    PageIndices(v);
    MapEntryProgress(s, root, I4(v), I3(v), I2(v), PageEntry(p, flags));
    InTranslation(s.mem, root, v);
  }

  lemma InTranslation(m: Memory, root: nat, v: nat)
    requires v < VIRTUAL_END
    ensures v / PAGE in Translation(m, root) <==> Present(Leaf(m, root, I4(v), I3(v), I2(v)))
  {
    PageIndices(v);
  }
}
