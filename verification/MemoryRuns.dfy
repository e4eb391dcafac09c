/** Runs of `mm::alloc`: what was granted stays mapped, and is shared with nobody. */
module MemoryRuns {
  import opened Words
  import opened Wrappers
  import opened PageModel
  import opened PageInvariant
  import opened PageTranslation
  import opened MemoryModel
  import Phys = PhysicalPages

  /** The tables, the page bitmap, and the pages granted so far with the addresses they were given. */
  datatype Manager = Manager(s: Paging, words: seq<Word>, owned: map<nat, nat>)

  datatype Call = Call(count: nat, flags: Word)

  /** `m'` is where `call` leaves `m`; it does not panic. A call that is given nothing may still change the bitmap. */
  ghost predicate Calls(m: Manager, root: nat, mask: Phys.Mask, call: Call, m': Manager)
  {
    call.flags < PAGE &&
    (Inv(m.s, root) && |m.words| == Phys.WORDS ==>
      match Alloc(m.s, root, m.words, mask, call.count, call.flags)
      case Granted(s', words', g, pages) => m' == Manager(s', words', Add(m.owned, g, pages))
      case Nothing(words') => m' == Manager(m.s, words', m.owned)
      case Panic => false)
  }

  ghost predicate Run(trace: seq<Manager>, root: nat, mask: Phys.Mask, calls: seq<Call>)
  {
    |trace| == |calls| + 1 && forall i: nat | i < |calls| :: Calls(trace[i], root, mask, calls[i], trace[i + 1])
  }

  /** Page `q` of physical memory is one `mm` manages, is tracked, and starts at `addr`. */
  ghost predicate Holds(words: seq<Word>, mask: Phys.Mask, addr: nat, q: nat)
    requires |words| == Phys.WORDS
  {
    addr == q * PAGE && Phys.FIRST_PAGE <= q < Phys.PAGE_LIMIT && Phys.Tracked(words, mask, q)
  }

  ghost predicate Backed(words: seq<Word>, mask: Phys.Mask, owned: map<nat, nat>)
    requires |words| == Phys.WORDS
  {
    forall g | g in owned :: Holds(words, mask, owned[g], owned[g] / PAGE)
  }

  ghost predicate Mapped(t: map<nat, nat>, owned: map<nat, nat>)
  {
    forall g | g in owned :: g in t && t[g] == owned[g]
  }

  ghost predicate Injective(owned: map<nat, nat>)
  {
    forall g, h | g in owned && h in owned && g != h :: owned[g] != owned[h]
  }

  /** What was granted is mapped, to tracked pages, each to its own. */
  ghost predicate Backs(m: Manager, root: nat, mask: Phys.Mask)
  {
    && |m.words| == Phys.WORDS
    && Mapped(Translation(m.s.mem, root), m.owned) && Backed(m.words, mask, m.owned) && Injective(m.owned)
  }

  /** What every state of a run satisfies. */
  ghost predicate Owns(m: Manager, root: nat, mask: Phys.Mask)
  {
    Inv(m.s, root) && Backs(m, root, mask)
  }

  /** What a successful `allocPhysicalPages` says of its pages. */
  ghost predicate Fresh(words: seq<Word>, mask: Phys.Mask, pages: seq<nat>, words': seq<Word>)
  {
    && |words| == |words'| == Phys.WORDS && Phys.StrictlyIncreasing(pages)
    && (forall p | p in pages ::
          Phys.FIRST_PAGE <= p < Phys.PAGE_LIMIT && !Phys.Tracked(words, mask, p) && Phys.Tracked(words', mask, p))
    && (forall p: nat | p < Phys.PAGE_LIMIT && Phys.Tracked(words, mask, p) :: Phys.Tracked(words', mask, p))
  }

  lemma GrantIsFresh(words: seq<Word>, mask: Phys.Mask, count: nat, words': seq<Word>, pages: seq<nat>)
    requires |words| == Phys.WORDS && Phys.NonzeroMask(mask) && Phys.AllocPages(words, mask, count) == (words', Some(pages))
    ensures Fresh(words, mask, pages, words')
  {
    Phys.AllocPagesTracks(words, mask, count);
  }

  lemma AddMapped(t: map<nat, nat>, owned: map<nat, nat>, g: nat, pages: seq<nat>)
    requires Mapped(t, owned)
    ensures Mapped(Add(t, g, pages), Add(owned, g, pages))
  {
    forall h | h in Add(owned, g, pages)
      ensures h in Add(t, g, pages) && Add(t, g, pages)[h] == Add(owned, g, pages)[h]
    {
      AddAt(t, g, pages, h);
      AddAt(owned, g, pages, h);
    }
  }

  lemma PageOf(p: nat)
    ensures p * PAGE / PAGE == p
  {
  }

  lemma AddBacked(words: seq<Word>, mask: Phys.Mask, owned: map<nat, nat>, g: nat, pages: seq<nat>, words': seq<Word>)
    requires |words| == Phys.WORDS && Backed(words, mask, owned) && Fresh(words, mask, pages, words')
    ensures Backed(words', mask, Add(owned, g, pages))
  {
    var owned' := Add(owned, g, pages);
    forall h | h in owned'
      ensures Holds(words', mask, owned'[h], owned'[h] / PAGE)
    {
      AddAt(owned, g, pages, h);
      if g <= h < g + |pages| {
        PageOf(pages[h - g]);
        assert pages[h - g] in pages;
      } else {
        assert Holds(words, mask, owned[h], owned[h] / PAGE);
      }
    }
  }

  /** A page just granted is not one granted before. */
  lemma NewIsNotOld(words: seq<Word>, mask: Phys.Mask, owned: map<nat, nat>, pages: seq<nat>, words': seq<Word>, h: nat, i: nat)
    requires |words| == Phys.WORDS && Backed(words, mask, owned) && Fresh(words, mask, pages, words')
    requires h in owned && i < |pages|
    ensures owned[h] != pages[i] * PAGE
  {
    assert Holds(words, mask, owned[h], owned[h] / PAGE);
    PageOf(pages[i]);
    assert pages[i] in pages;
  }

  lemma AddInjective(words: seq<Word>, mask: Phys.Mask, owned: map<nat, nat>, g: nat, pages: seq<nat>, words': seq<Word>)
    requires |words| == Phys.WORDS && Backed(words, mask, owned) && Fresh(words, mask, pages, words') && Injective(owned)
    ensures Injective(Add(owned, g, pages))
  {
    var owned' := Add(owned, g, pages);
    forall a, b | a in owned' && b in owned' && a < b
      ensures owned'[a] != owned'[b]
    {
      AddAt(owned, g, pages, a);
      AddAt(owned, g, pages, b);
      if g <= a < g + |pages| {
        if g <= b < g + |pages| {
          assert pages[a - g] < pages[b - g];
        } else {
          NewIsNotOld(words, mask, owned, pages, words', b, a - g);
        }
      } else if g <= b < g + |pages| {
        NewIsNotOld(words, mask, owned, pages, words', a, b - g);
      }
    }
  }

  lemma AddKeepsOwned(t: map<nat, nat>, owned: map<nat, nat>, g: nat, pages: seq<nat>, h: nat)
    requires Mapped(t, owned) && RangeFree(t, g, |pages|) && h in owned
    ensures h in Add(owned, g, pages) && Add(owned, g, pages)[h] == owned[h]
  {
    AddAt(owned, g, pages, h);
  }

  /** Rolling back the free pages clears the bit of no page in `owned`. */
  ghost predicate Spared(words: seq<Word>, mask: Phys.Mask, owned: map<nat, nat>)
    requires |words| == Phys.WORDS
  {
    forall g | g in owned :: !Phys.Hit(words, mask, owned[g] / PAGE)
  }

  /** `call` finds a range, but not enough physical pages for it. */
  ghost predicate RollsBack(m: Manager, root: nat, mask: Phys.Mask, call: Call)
    requires |m.words| == Phys.WORDS
  {
    && 0 < call.count <= MAX_PAGES && FindRange(Translation(m.s.mem, root), call.count).Some?
    && Phys.AllocPages(m.words, mask, call.count).1.None?
  }

  /** Where `call` fails, its rollback spares the granted pages; what a rollback does is known for the one-bit mask only. */
  ghost predicate Spares(m: Manager, root: nat, mask: Phys.Mask, call: Call)
  {
    |m.words| == Phys.WORDS && RollsBack(m, root, mask, call) ==>
      Phys.OneBitMask(mask) && Spared(m.words, mask, m.owned)
  }

  lemma FailureBacksIff(words: seq<Word>, mask: Phys.Mask, count: nat, owned: map<nat, nat>)
    requires |words| == Phys.WORDS && Phys.OneBitMask(mask) && Phys.AllocPages(words, mask, count).1.None?
    requires Backed(words, mask, owned)
    ensures |Phys.AllocPages(words, mask, count).0| == Phys.WORDS
    ensures Backed(Phys.AllocPages(words, mask, count).0, mask, owned) <==> Spared(words, mask, owned)
  {
    var words' := Phys.AllocPages(words, mask, count).0;
    FailureLength(words, mask, count);
    forall g | g in owned
      ensures Holds(words', mask, owned[g], owned[g] / PAGE) <==> !Phys.Hit(words, mask, owned[g] / PAGE)
    {
      assert Holds(words, mask, owned[g], owned[g] / PAGE);
      Phys.FailureTracks(words, mask, count, owned[g] / PAGE);
    }
  }

  lemma FailureLength(words: seq<Word>, mask: Phys.Mask, count: nat)
    requires |words| == Phys.WORDS
    ensures |Phys.AllocPages(words, mask, count).0| == Phys.WORDS
  {
  }

  lemma RollBackLeaves(m: Manager, root: nat, mask: Phys.Mask, call: Call, m': Manager)
    requires Inv(m.s, root) && |m.words| == Phys.WORDS && RollsBack(m, root, mask, call) && Calls(m, root, mask, call, m')
    ensures m' == Manager(m.s, Phys.AllocPages(m.words, mask, call.count).0, m.owned)
  {
  }

  /**
    After a call that finds too few physical pages, the granted pages are all still tracked, so that they cannot be
    granted again, if and only if its rollback clears none of their bits.
   */
  lemma FailureKeepsOwnsIff(m: Manager, root: nat, mask: Phys.Mask, call: Call, m': Manager)
    requires Owns(m, root, mask) && Phys.OneBitMask(mask) && RollsBack(m, root, mask, call) && Calls(m, root, mask, call, m')
    ensures Owns(m', root, mask) <==> Spared(m.words, mask, m.owned)
  {
    RollBackLeaves(m, root, mask, call, m');
    hide RollsBack, Calls, Inv, Spared;
    FailureBacksIff(m.words, mask, call.count, m.owned);
  }

  /** A call keeps the ownership unless its rollback hits a granted page, and takes nothing granted before away. */
  lemma CallKeepsOwns(m: Manager, root: nat, mask: Phys.Mask, call: Call, m': Manager)
    requires Owns(m, root, mask) && Phys.NonzeroMask(mask) && Calls(m, root, mask, call, m') && Spares(m, root, mask, call)
    ensures Owns(m', root, mask) && Mapped(m'.owned, m.owned)
  {
    if RollsBack(m, root, mask, call) {
      RollBackLeaves(m, root, mask, call, m');
      FailureKeepsOwnsIff(m, root, mask, call, m');
    } else {
      match Alloc(m.s, root, m.words, mask, call.count, call.flags) {
        case Granted(s', words', g, pages) =>
          AllocMapsRange(m.s, root, m.words, mask, call.count, call.flags);
          GrantKeepsOwns(m, root, mask, s', words', g, pages);
        case Nothing(_) =>
      }
    }
  }

  lemma GrantKeepsOwns(m: Manager, root: nat, mask: Phys.Mask, s': Paging, words': seq<Word>, g: nat, pages: seq<nat>)
    requires Owns(m, root, mask) && Phys.NonzeroMask(mask) && Inv(s', root)
    requires Translation(s'.mem, root) == Add(Translation(m.s.mem, root), g, pages)
    requires RangeFree(Translation(m.s.mem, root), g, |pages|)
    requires Phys.AllocPages(m.words, mask, |pages|) == (words', Some(pages))
    ensures Owns(Manager(s', words', Add(m.owned, g, pages)), root, mask)
    ensures Mapped(Add(m.owned, g, pages), m.owned)
  {
    var t := Translation(m.s.mem, root);
    GrantIsFresh(m.words, mask, |pages|, words', pages);
    AddMapped(t, m.owned, g, pages);
    AddBacked(m.words, mask, m.owned, g, pages, words');
    AddInjective(m.words, mask, m.owned, g, pages, words');
    forall h | h in m.owned
      ensures h in Add(m.owned, g, pages) && Add(m.owned, g, pages)[h] == m.owned[h]
    {
      AddKeepsOwned(t, m.owned, g, pages, h);
    }
  }

  /** Every failing call of the run spares what was granted before it. */
  ghost predicate SparingRun(trace: seq<Manager>, root: nat, mask: Phys.Mask, calls: seq<Call>)
  {
    Run(trace, root, mask, calls) && forall i: nat | i < |calls| :: Spares(trace[i], root, mask, calls[i])
  }

  /** What was granted by step i is still owned, at the same address, at step j. */
  lemma {:induction false} RunOwns(trace: seq<Manager>, root: nat, mask: Phys.Mask, calls: seq<Call>, i: nat, j: nat)
    requires SparingRun(trace, root, mask, calls) && Phys.NonzeroMask(mask) && i <= j < |trace| && Owns(trace[i], root, mask)
    ensures Owns(trace[j], root, mask) && Mapped(trace[j].owned, trace[i].owned)
    decreases j
  {
    hide Calls, Spares, Owns, Mapped;
    if i < j {
      RunOwns(trace, root, mask, calls, i, j - 1);
      assert Calls(trace[j - 1], root, mask, calls[j - 1], trace[j - 1 + 1]) && Spares(trace[j - 1], root, mask, calls[j - 1]);
      CallKeepsOwns(trace[j - 1], root, mask, calls[j - 1], trace[j]);
      MappedTransitive(trace[i].owned, trace[j - 1].owned, trace[j].owned);
    } else {
      MappedSelf(trace[i].owned);
    }
  }

  lemma MappedSelf(t: map<nat, nat>)
    ensures Mapped(t, t)
  {
  }

  lemma MappedTransitive(t: map<nat, nat>, t': map<nat, nat>, t'': map<nat, nat>)
    requires Mapped(t', t) && Mapped(t'', t')
    ensures Mapped(t'', t)
  {
  }

  /**
    From any page tables and any bitmap, over a run whose failing calls spare the granted pages: a page granted by the
    first i calls translates after j calls as it did when it was granted, and no two granted pages translate to the same
    physical page.
   */
  lemma GrantsNeverShare(trace: seq<Manager>, root: nat, mask: Phys.Mask, calls: seq<Call>, i: nat, j: nat, g: nat, h: nat)
    requires SparingRun(trace, root, mask, calls) && Phys.NonzeroMask(mask) && i <= j < |trace|
    requires Inv(trace[0].s, root) && |trace[0].words| == Phys.WORDS && trace[0].owned == map[]
    requires g in trace[i].owned && h in trace[j].owned && g != h
    ensures var t := Translation(trace[j].s.mem, root);
      g in t && t[g] == trace[i].owned[g] && h in t && t[g] != t[h]
  {
    hide SparingRun, Inv;
    StartOwns(trace[0], root, mask);
    RunOwns(trace, root, mask, calls, 0, i);
    RunOwns(trace, root, mask, calls, i, j);
  }

  lemma StartOwns(m: Manager, root: nat, mask: Phys.Mask)
    requires Inv(m.s, root) && |m.words| == Phys.WORDS && m.owned == map[]
    ensures Owns(m, root, mask)
  {
  }

  // --- every run ------------------------------------------------------------------------------------

  /** What no call can undo, even one whose rollback goes wrong: grants are mapped, aligned and above 6 MiB. */
  ghost predicate Placed(m: Manager, root: nat)
  {
    && Inv(m.s, root) && |m.words| == Phys.WORDS && Mapped(Translation(m.s.mem, root), m.owned)
    && forall g | g in m.owned :: Phys.FIRST_PAGE * PAGE <= m.owned[g]
  }

  lemma AddKeepsMappings(t: map<nat, nat>, g: nat, pages: seq<nat>)
    requires RangeFree(t, g, |pages|)
    ensures Mapped(Add(t, g, pages), t)
  {
    forall h | h in t
      ensures h in Add(t, g, pages) && Add(t, g, pages)[h] == t[h]
    {
      AddAt(t, g, pages, h);
    }
  }

  lemma AddPlaced(owned: map<nat, nat>, g: nat, pages: seq<nat>, h: nat)
    requires Phys.InLimits(pages, Phys.FIRST_PAGE) && h in Add(owned, g, pages)
    requires h in owned ==> Phys.FIRST_PAGE * PAGE <= owned[h]
    ensures Phys.FIRST_PAGE * PAGE <= Add(owned, g, pages)[h]
  {
    AddAt(owned, g, pages, h);
  }

  lemma GrantKeepsPlaced(m: Manager, root: nat, mask: Phys.Mask, s': Paging, words': seq<Word>, g: nat, pages: seq<nat>)
    requires Placed(m, root) && Inv(s', root) && Translation(s'.mem, root) == Add(Translation(m.s.mem, root), g, pages)
    requires RangeFree(Translation(m.s.mem, root), g, |pages|)
    requires Phys.AllocPages(m.words, mask, |pages|) == (words', Some(pages))
    ensures Placed(Manager(s', words', Add(m.owned, g, pages)), root)
    ensures Mapped(Translation(s'.mem, root), Translation(m.s.mem, root)) && Mapped(Add(m.owned, g, pages), m.owned)
  {
    hide Inv;
    var t, owned' := Translation(m.s.mem, root), Add(m.owned, g, pages);
    AddKeepsMappings(t, g, pages);
    AddMapped(t, m.owned, g, pages);
    assert RangeFree(m.owned, g, |pages|);
    AddKeepsMappings(m.owned, g, pages);
    FailureLength(m.words, mask, |pages|);
    hide Mapped, RangeFree;
    forall h | h in owned'
      ensures Phys.FIRST_PAGE * PAGE <= owned'[h]
    {
      AddPlaced(m.owned, g, pages, h);
    }
  }

  /** Any call, also one that fails, keeps every mapping there was, whoever made it. */
  lemma CallKeepsMappings(m: Manager, root: nat, mask: Phys.Mask, call: Call, m': Manager)
    requires Placed(m, root) && Calls(m, root, mask, call, m')
    ensures Placed(m', root) && m'.s.end == m.s.end
    ensures Mapped(Translation(m'.s.mem, root), Translation(m.s.mem, root)) && Mapped(m'.owned, m.owned)
  {
    match Alloc(m.s, root, m.words, mask, call.count, call.flags) {
      case Granted(s', words', g, pages) =>
        AllocMapsRange(m.s, root, m.words, mask, call.count, call.flags);
        GrantKeepsPlaced(m, root, mask, s', words', g, pages);
      case Nothing(_) => FailureLength(m.words, mask, call.count);
    }
  }

  /** Over every run, failing calls included, mappings and grants stay as they were made. */
  lemma {:induction false} RunKeepsMappings(trace: seq<Manager>, root: nat, mask: Phys.Mask, calls: seq<Call>, j: nat)
    requires Run(trace, root, mask, calls) && j < |trace| && Placed(trace[0], root)
    ensures Placed(trace[j], root) && trace[j].s.end == trace[0].s.end
    ensures Mapped(Translation(trace[j].s.mem, root), Translation(trace[0].s.mem, root))
    ensures Mapped(trace[j].owned, trace[0].owned)
  {
    hide Calls, Placed, Mapped, Translation;
    if j > 0 {
      RunKeepsMappings(trace, root, mask, calls, j - 1);
      assert Calls(trace[j - 1], root, mask, calls[j - 1], trace[j - 1 + 1]);
      CallKeepsMappings(trace[j - 1], root, mask, calls[j - 1], trace[j]);
      MappedTransitive(Translation(trace[0].s.mem, root), Translation(trace[j - 1].s.mem, root), Translation(trace[j].s.mem, root));
      MappedTransitive(trace[0].owned, trace[j - 1].owned, trace[j].owned);
    } else {
      MappedSelf(Translation(trace[0].s.mem, root));
      MappedSelf(trace[0].owned);
    }
  }
}
