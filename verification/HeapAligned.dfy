/**
  `allocAligned`: for each free block, the search for an aligned place and the three
  ways of cutting the block there.
 */
module HeapAligned {
  import opened Words
  import opened Wrappers
  import opened Algorithm
  import opened HeapModel
  import opened HeapSafety

  /** What the inner loop decides about one block. `Spin` is the loop that makes no progress. */
  datatype Cut = Pass | Whole | Front | Middle(at: nat) | Back(at: nat) | Spin

  /** The inner loop on a block of `length` bytes at `addr`, from the candidate `na` on. */
  function Probe(length: Word, addr: Word, size: Word, align: Word, na: Word): Cut
    decreases
      var pad := Wrap(na - addr);
      if pad >= HEADER_SIZE then 0 else if align <= SIGN_64 then HEADER_SIZE - pad else pad + 1
  {
    var pad := Wrap(na - addr);
    var actual := Wrap(length - pad);
    if actual >= SIGN_64 then Pass
    else if addr == na then
      if actual == size then Whole else Front
    else if pad < HEADER_SIZE then
      var na' := Wrap(na + align);
      if Wrap(na' - addr) >= length then Pass
      else if align == 0 then Spin
      else Probe(length, addr, size, align, na')
    else if actual > Wrap(size + HEADER_SIZE) then Middle(na)
    else if actual == size then Back(na)
    else Spin
  }

  function CutOf(h: HeapState, a: nat, size: Word, align: Word): Cut
    requires a in h.hdrs
  {
    var addr := Wrap(a + HEADER_SIZE);
    if h.hdrs[a].Used() then Pass else Probe(h.hdrs[a].length, addr, size, align, AlignUp(addr, align))
  }

  lemma {:induction false} PaddedProbe(length: Word, addr: Word, size: Word, align: Word, na: Word)
    ensures match Probe(length, addr, size, align, na)
      case Middle(at) => at < TWO_64 && at != addr
      case Back(at) => at < TWO_64 && at != addr
      case _ => true
    decreases
      var pad := Wrap(na - addr);
      if pad >= HEADER_SIZE then 0 else if align <= SIGN_64 then HEADER_SIZE - pad else pad + 1
  {
    var pad := Wrap(na - addr);
    if Wrap(length - pad) < SIGN_64 && addr != na && pad < HEADER_SIZE && align != 0 {
      PaddedProbe(length, addr, size, align, Wrap(na + align));
    }
  }

  /** Where padding is cut there is some. */
  lemma PaddedCut(h: HeapState, a: nat, size: Word, align: Word)
    requires a in h.hdrs
    ensures match CutOf(h, a, size, align)
      case Middle(at) => at < TWO_64 && at != Wrap(a + HEADER_SIZE)
      case Back(at) => at < TWO_64 && at != Wrap(a + HEADER_SIZE)
      case _ => true
  {
    var addr := Wrap(a + HEADER_SIZE);
    PaddedProbe(h.hdrs[a].length, addr, size, align, AlignUp(addr, align));
  }

  /** The first block of the chain that is not passed over. */
  function FirstCut(h: HeapState, c: seq<nat>, size: Word, align: Word): (r: Option<nat>)
    requires forall a | a in c :: a in h.hdrs
    ensures r.Some? ==> r.value in c && CutOf(h, r.value, size, align) != Pass
    ensures r.None? ==> forall a | a in c :: CutOf(h, a, size, align) == Pass
  {
    if c == [] then None
    else if CutOf(h, c[0], size, align) != Pass then Some(c[0])
    else FirstCut(h, c[1..], size, align)
  }

  lemma {:induction false} FirstCutIsFirst(h: HeapState, c: seq<nat>, size: Word, align: Word) returns (i: nat)
    requires (forall a | a in c :: a in h.hdrs) && FirstCut(h, c, size, align).Some?
    ensures i < |c| && FirstCut(h, c, size, align) == Some(c[i]) && CutOf(h, c[i], size, align) != Pass
    ensures forall j: nat | j < i :: CutOf(h, c[j], size, align) == Pass
  {
    hide CutOf;
    i := 0;
    if CutOf(h, c[0], size, align) == Pass {
      var k := FirstCutIsFirst(h, c[1..], size, align);
      i := k + 1;
      forall j: nat | j < i
        ensures CutOf(h, c[j], size, align) == Pass
      {
        if j > 0 { assert c[j] == c[1..][j - 1]; }
      }
    }
  }

  /** What cutting both ends of the block `a` leaves at `x`: that block, the middle one or the last. */
  function MiddleHeader(hd: Header, a: nat, mid: Word, end: Word, front: Word, size: Word, back: Word, x: nat): Header
  {
    Header(
      if x == mid then USED else if x == end then FREE else hd.flags,
      if x == a then front else if x == mid then size else back,
      if x == end then mid else if x == mid then Wrap(a) else hd.prev,
      if x == a then mid else if x == mid then end else hd.next)
  }

  function WithMiddle(hdrs: map<nat, Header>, a: nat, mid: Word, end: Word, front: Word, size: Word, back: Word): map<nat, Header>
    requires a in hdrs
  {
    hdrs[a := MiddleHeader(hdrs[a], a, mid, end, front, size, back, a)]
        [mid as nat := MiddleHeader(hdrs[a], a, mid, end, front, size, back, mid)]
        [end as nat := MiddleHeader(hdrs[a], a, mid, end, front, size, back, end)]
  }

  function CutMiddle(h: HeapState, a: nat, at: nat, size: Word): HeapState
    requires a in h.hdrs
  {
    var pad := Wrap(at - Wrap(a + HEADER_SIZE));
    var actual := Wrap(h.hdrs[a].length - pad);
    h.(hdrs := WithMiddle(h.hdrs, a, Wrap(at - HEADER_SIZE), Wrap(at + size),
                          Wrap(pad - HEADER_SIZE), size, Wrap(actual - size - HEADER_SIZE)))
  }

  function CutBack(h: HeapState, a: nat, at: nat, size: Word): HeapState
    requires a in h.hdrs
  {
    var hd := h.hdrs[a];
    var pad := Wrap(at - Wrap(a + HEADER_SIZE));
    var end: nat := Wrap(at - HEADER_SIZE);
    h.(hdrs := h.hdrs[a := hd.(length := Wrap(pad - HEADER_SIZE), next := end)]
                     [end := Header(USED, size, Wrap(a), hd.next)])
  }

  datatype AlignedOutcome = Got(heap: HeapState, p: nat) | NoRoom | Diverges

  /** The cut chosen for block `a`, carried out. */
  function Commit(h: HeapState, a: nat, size: Word, align: Word): AlignedOutcome
    requires a in h.hdrs
  {
    match CutOf(h, a, size, align)
    case Whole => Got(Take(h, a), a + HEADER_SIZE)
    case Front => Got(Split(h, a, size), a + HEADER_SIZE)
    case Middle(at) => Got(CutMiddle(h, a, at, size), at)
    case Back(at) => Got(CutBack(h, a, at, size), at)
    case _ => Diverges
  }

  function AllocAligned(h: HeapState, size: Word, align: Word): AlignedOutcome
  {
    var r := FirstCut(h, Chain(h), size, align);
    if r.None? then NoRoom else Commit(h, r.value, size, align)
  }

  // --- what the loops decide --------------------------------------------------------------

  /** The place for an aligned payload: `addr` itself, or the first multiple with a header's room before it. */
  function FirstPlace(addr: nat, align: nat): nat
    requires align > 0
  {
    if addr % align == 0 then addr else RoundUp(addr + HEADER_SIZE, align)
  }

  /** It is the least multiple that is `addr` or leaves 32 bytes before it. */
  lemma FirstPlaceLeast(addr: nat, align: nat, x: nat)
    requires align > 0
    ensures var at := FirstPlace(addr, align); at % align == 0 && (at == addr || at >= addr + 32)
    ensures x % align == 0 && (x == addr || x >= addr + 32) ==> FirstPlace(addr, align) <= x
  {
    RoundUpMultiple(addr + 32, align);
    if x % align == 0 && x >= addr + 32 {
      RoundUpLeast(addr + 32, align, x);
    }
  }

  /** The bytes of the block from that place on; negative where it lies behind the block. */
  function Rest(length: nat, addr: nat, align: nat): int
    requires align > 0
  {
    addr + length - FirstPlace(addr, align)
  }

  /**
    The place is not in the block: behind it, or at its end when it is not the first multiple tried. The last
    case is the signed comparison, which takes 2^63 bytes and more for a negative number.
   */
  predicate Misses(length: nat, addr: nat, align: nat)
    requires align > 0
  {
    || Rest(length, addr, align) < 0
    || (Rest(length, addr, align) == 0 && FirstPlace(addr, align) != RoundUp(addr, align))
    || length - (RoundUp(addr, align) - addr) >= SIGN_64
  }

  /** The decision in closed form. */
  function Decision(length: nat, addr: nat, size: Word, align: nat): Cut
    requires align > 0
  {
    var at, rest := FirstPlace(addr, align), Rest(length, addr, align);
    if Misses(length, addr, align) then Pass
    else if at == addr then
      if length == size then Whole else Front
    else if rest > Wrap(size + HEADER_SIZE) then Middle(at)
    else if rest == size then Back(at)
    else Spin
  }

  lemma PowerOfTwoBound(a: nat)
    requires PowerOfTwo(a)
    ensures 0 < a <= SIGN_64
  {
    var k: nat :| k < 64 && a == Pow2(k);
    Pow2Values();
    if k < 63 { Pow2Monotone(k, 63); }
  }

  predicate StepsTo(na: nat, at: nat, align: nat)
    requires align > 0
  {
    na % align == 0 && at % align == 0 && na <= at
  }

  lemma OneStep(na: nat, at: nat, align: nat)
    requires align > 0 && StepsTo(na, at, align) && na < at
    ensures na + align <= at && StepsTo(na + align, at, align)
  {
    MultiplesApart(na, at, align);
    DivModUnique(na + align, align, na / align + 1, 0);
  }

  /** The loop from a multiple `na` between `addr` and the place `at`. */
  lemma {:induction false} ProbeDecides(length: Word, addr: Word, size: Word, align: Word, na: Word, at: nat)
    requires 0 < align <= SIGN_64 && addr + length < TWO_64
    requires addr < na <= at && StepsTo(na, at, align) && addr + HEADER_SIZE <= at < addr + HEADER_SIZE + align
    requires na < addr + align || na < addr + length
    ensures Probe(length, addr, size, align, na) ==
      var rest := addr + length - at;
      if length - (na - addr) >= SIGN_64 || rest < 0 || (rest == 0 && at != na) then Pass
      else if rest > Wrap(size + HEADER_SIZE) then Middle(at)
      else if rest == size then Back(at)
      else Spin
    decreases if na - addr < HEADER_SIZE then HEADER_SIZE - (na - addr) else 0
  {
    hide StepsTo;
    var pad := na - addr;
    if na < at {
      OneStep(na, at, align);
      if pad < HEADER_SIZE && 0 <= length - pad < SIGN_64 && pad + align < length {
        ProbeDecides(length, addr, size, align, na + align, at);
      }
    }
  }

  /** The inner loop of `allocAligned`, for every block, size and power of two, decides as the closed form says. */
  lemma CutOfDecides(h: HeapState, a: nat, size: Word, align: Word)
    requires Tiled(h) && a in h.hdrs && PowerOfTwo(align)
    ensures align > 0
    ensures CutOf(h, a, size, align) ==
      if h.hdrs[a].Used() then Pass else Decision(h.hdrs[a].length, a + HEADER_SIZE, size, align)
  {
    PowerOfTwoBound(align);
    NextBlock(h, a);
    if !h.hdrs[a].Used() {
      FirstProbeDecides(h.hdrs[a].length, a + HEADER_SIZE, size, align);
    }
  }

  lemma FirstProbeDecides(length: Word, addr: Word, size: Word, align: Word)
    requires PowerOfTwo(align) && 0 < align <= SIGN_64 && 0 < addr && addr + length < TWO_64
    ensures Probe(length, addr, size, align, AlignUp(addr, align)) == Decision(length, addr, size, align)
  {
    var na, at := RoundUp(addr, align), RoundUp(addr + HEADER_SIZE, align);
    AlignUpRounds(addr, align);
    RoundUpMultiple(addr, align);
    RoundUpMultiple(addr + HEADER_SIZE, align);
    RoundUpLeast(addr, align, at);
    if addr + align > TWO_64 {
      RoundsToEnd(addr, align);
    } else if addr % align != 0 {
      ProbeDecides(length, addr, size, align, na, at);
    }
  }

  /** Above the last multiple below 2^64 of a power of two, rounding up gives at least 2^64. */
  lemma RoundsToEnd(addr: Word, align: Word)
    requires PowerOfTwo(align) && 0 < align && addr + align > TWO_64
    ensures RoundUp(addr, align) >= TWO_64
  {
    var k: nat :| k < 64 && align == Pow2(k);
    RoundUpMultiple(addr, align);
    Pow2Divides(k, 64);
    Pow2Values();
    if RoundUp(addr, align) < TWO_64 {
      MultiplesApart(RoundUp(addr, align), TWO_64, align);
    }
  }

  /** `h'` is a tiled heap with the live blocks of `h` and a new one whose payload is at `p`. */
  ghost predicate Grants(h: HeapState, h': HeapState, p: nat, size: nat)
  {
    && Tiled(h') && p >= HEADER_SIZE && p - HEADER_SIZE !in LiveBlocks(h)
    && LiveBlocks(h') == LiveBlocks(h)[p - HEADER_SIZE := size]
  }

  /** The first of the two cuts that take the middle of a block. */
  function HeadCut(h: HeapState, a: nat, at: nat): HeapState
    requires a in h.hdrs && a + 2 * HEADER_SIZE <= at <= a + HEADER_SIZE + h.hdrs[a].length < TWO_64
  {
    var hd, mid: Word := h.hdrs[a], at - HEADER_SIZE;
    h.(hdrs := h.hdrs[a := Header(hd.flags, at - a - 2 * HEADER_SIZE, hd.prev, mid)]
                     [mid as nat := Header(FREE, a + HEADER_SIZE + hd.length - at, a, hd.next)])
  }

  lemma CutMiddleShape(h: HeapState, a: nat, at: nat, size: Word, h1: HeapState, h2: HeapState)
    requires Tiled(h) && a in h.hdrs
    requires a + 2 * HEADER_SIZE <= at && at + size + HEADER_SIZE <= a + HEADER_SIZE + h.hdrs[a].length < TWO_64
    requires var hd, mid: Word, end: Word := h.hdrs[a], at - HEADER_SIZE, at + size;
      var rest: Word := a + HEADER_SIZE + hd.length - at;
      && h1 == HeadCut(h, a, at)
      && h2 == h1.(hdrs := h1.hdrs[mid as nat := Header(USED, size, a, end)]
                                  [end as nat := Header(FREE, rest - size - HEADER_SIZE, mid, hd.next)])
    ensures h2 == CutMiddle(h, a, at, size)
  {
    assert h2.hdrs == CutMiddle(h, a, at, size).hdrs;
  }

  /** It makes two free blocks of one. */
  lemma HeadCutTiles(h: HeapState, a: nat, at: nat)
    requires Tiled(h) && a in h.hdrs && !h.hdrs[a].Used()
    requires a + 2 * HEADER_SIZE <= at <= a + HEADER_SIZE + h.hdrs[a].length < TWO_64
    ensures Tiled(HeadCut(h, a, at)) && at - HEADER_SIZE !in h.hdrs && LiveBlocks(HeadCut(h, a, at)) == LiveBlocks(h)
  {
    NextBlock(h, a);
    var hd := h.hdrs[a];
    NotInside(h, a, at - HEADER_SIZE);
    CutTiles(h, a, Header(FREE, at - a - 2 * HEADER_SIZE, hd.prev, at - HEADER_SIZE),
                   Header(FREE, a + HEADER_SIZE + hd.length - at, a, hd.next), HeadCut(h, a, at));
  }

  /** The second: the block at `mid` is taken and a free block starts behind its payload. */
  lemma SecondCutTiles(h: HeapState, mid: nat, size: Word, h2: HeapState)
    requires Tiled(h) && mid in h.hdrs && !h.hdrs[mid].Used()
    requires mid + HEADER_SIZE + size + HEADER_SIZE <= mid + HEADER_SIZE + h.hdrs[mid].length < TWO_64
    requires var hd, end: Word := h.hdrs[mid], mid + HEADER_SIZE + size;
      h2 == h.(hdrs := h.hdrs[mid := Header(USED, size, hd.prev, end)]
                             [end as nat := Header(FREE, hd.length - size - HEADER_SIZE, mid, hd.next)])
    ensures Grants(h, h2, mid + HEADER_SIZE, size)
  {
    NextBlock(h, mid);
    var hd, end: Word := h.hdrs[mid], mid + HEADER_SIZE + size;
    NotInside(h, mid, end);
    CutTiles(h, mid, Header(USED, size, hd.prev, end), Header(FREE, hd.length - size - HEADER_SIZE, mid, hd.next), h2);
  }

  lemma MiddleGrants(h: HeapState, a: nat, at: nat, size: Word)
    requires Tiled(h) && a in h.hdrs && !h.hdrs[a].Used()
    requires a + 2 * HEADER_SIZE <= at && at + size + HEADER_SIZE <= a + HEADER_SIZE + h.hdrs[a].length
    ensures Grants(h, CutMiddle(h, a, at, size), at, size)
  {
    NextBlock(h, a);
    var hd, mid: Word, end: Word := h.hdrs[a], at - HEADER_SIZE, at + size;
    var rest: Word := a + HEADER_SIZE + hd.length - at;
    var h1 := HeadCut(h, a, at);
    var h2 := h1.(hdrs := h1.hdrs[mid as nat := Header(USED, size, a, end)]
                                 [end as nat := Header(FREE, rest - size - HEADER_SIZE, mid, hd.next)]);
    HeadCutTiles(h, a, at);
    SecondCutTiles(h1, mid, size, h2);
    CutMiddleShape(h, a, at, size, h1, h2);
    hide Tiled, LiveBlocks, CutMiddle;
    SameLiveGrants(h, h1, h2, at, size);
  }

  lemma SameLiveGrants(h: HeapState, h1: HeapState, h2: HeapState, p: nat, size: nat)
    requires Grants(h1, h2, p, size) && LiveBlocks(h1) == LiveBlocks(h)
    ensures Grants(h, h2, p, size)
  {
  }

  lemma BackGrants(h: HeapState, a: nat, at: nat, size: Word)
    requires Tiled(h) && a in h.hdrs && !h.hdrs[a].Used()
    requires a + 2 * HEADER_SIZE <= at && at + size == a + HEADER_SIZE + h.hdrs[a].length
    ensures Grants(h, CutBack(h, a, at, size), at, size)
  {
    NextBlock(h, a);
    var hd := h.hdrs[a];
    NotInside(h, a, at - HEADER_SIZE);
    CutTiles(h, a, Header(FREE, at - a - 2 * HEADER_SIZE, hd.prev, at - HEADER_SIZE),
                   Header(USED, size, a, hd.next), CutBack(h, a, at, size));
  }

  /** A cut at the end of the block that runs past the block. */
  lemma FrontWithoutRoomBreaks(h: HeapState, a: nat, size: Word)
    requires Tiled(h) && a in h.hdrs && size + HEADER_SIZE < TWO_64 && !HasRoom(h, a, size)
    ensures !Tiled(Split(h, a, size))
  {
    var h' := Split(h, a, size);
    NextBlock(h, a);
    if Tiled(h') {
      NextBlock(h', a);
      NextBlock(h', Wrap(a + HEADER_SIZE + size));
    }
  }

  lemma FrontGrants(h: HeapState, a: nat, size: Word)
    requires Tiled(h) && a in h.hdrs && !h.hdrs[a].Used() && HasRoom(h, a, size)
    ensures Grants(h, Split(h, a, size), a + HEADER_SIZE, size)
  {
    var hd := h.hdrs[a];
    SplitShape(h, a, size);
    CutTiles(h, a, Header(USED, size, hd.prev, a + HEADER_SIZE + size),
                   Header(FREE, hd.length - size - HEADER_SIZE, a, hd.next), Split(h, a, size));
  }

  lemma WholeGrants(h: HeapState, a: nat, size: Word)
    requires Tiled(h) && a in h.hdrs && !h.hdrs[a].Used() && h.hdrs[a].length == size
    ensures Grants(h, Take(h, a), a + HEADER_SIZE, size)
  {
    ReflagTiles(h, a, USED);
  }

  /**
    What the code does not look at: that `size` and a header's size do not wrap, and that a block cut at its
    end only is long enough for the new header.
   */
  predicate CutFits(h: HeapState, a: nat, size: Word, align: Word)
    requires a in h.hdrs
  {
    size + HEADER_SIZE < TWO_64 && (CutOf(h, a, size, align) == Front ==> HasRoom(h, a, size))
  }

  /** What a cut is worth: an aligned place, inside the block in the two branches that cut padding. */
  lemma CutOfFinds(h: HeapState, a: nat, size: Word, align: Word)
    requires Tiled(h) && a in h.hdrs && PowerOfTwo(align)
    ensures align > 0
    ensures var end := a + HEADER_SIZE + h.hdrs[a].length;
      match CutOf(h, a, size, align)
      case Whole => (a + HEADER_SIZE) % align == 0 && h.hdrs[a].length == size
      case Front => (a + HEADER_SIZE) % align == 0 && h.hdrs[a].length != size
      case Middle(at) => at % align == 0 && a + 2 * HEADER_SIZE <= at && at + Wrap(size + HEADER_SIZE) < end
      case Back(at) => at % align == 0 && a + 2 * HEADER_SIZE <= at && at + size == end
      case _ => true
  {
    CutOfDecides(h, a, size, align);
    RoundUpMultiple(a + 2 * HEADER_SIZE, align);
  }

  /** The header of the returned block has the requested length, whatever else the cut has done. */
  lemma CommitLength(h: HeapState, a: nat, size: Word, align: Word)
    requires Tiled(h) && a in h.hdrs && PowerOfTwo(align) && Commit(h, a, size, align).Got?
    ensures var Got(h', p) := Commit(h, a, size, align);
      p >= HEADER_SIZE && (size + HEADER_SIZE >= TWO_64 ==> exists b | b in h'.hdrs :: h'.hdrs[b].length == size)
  {
    NextBlock(h, a);
    CutOfFinds(h, a, size, align);
    var Got(h', p) := Commit(h, a, size, align);
    match CutOf(h, a, size, align) {
      case Whole => assert h'.hdrs[a].length == size;
      case Front => assert h'.hdrs[a].length == size;
      case Middle(at) => assert Wrap(at - HEADER_SIZE) as nat in h'.hdrs && h'.hdrs[Wrap(at - HEADER_SIZE)].length == size;
      case Back(at) => assert Wrap(at - HEADER_SIZE) as nat in h'.hdrs && h'.hdrs[Wrap(at - HEADER_SIZE)].length == size;
    }
  }

  lemma OverlongIsNotTiled(h: HeapState, b: nat, size: Word)
    requires b in h.hdrs && h.hdrs[b].length == size && size + HEADER_SIZE >= TWO_64
    ensures !Tiled(h)
  {
    if Tiled(h) {
      NextBlock(h, b);
    }
  }

  lemma CommitKeepsRegion(h: HeapState, a: nat, size: Word, align: Word)
    requires a in h.hdrs && Commit(h, a, size, align).Got?
    ensures Commit(h, a, size, align).heap.base == h.base && Commit(h, a, size, align).heap.size == h.size
  {
  }

  lemma CommitGrants(h: HeapState, a: nat, size: Word, align: Word)
    requires Tiled(h) && a in h.hdrs && PowerOfTwo(align) && Commit(h, a, size, align).Got?
    ensures align > 0
    ensures var Got(h', p) := Commit(h, a, size, align);
      p % align == 0 && (if CutFits(h, a, size, align) then Grants(h, h', p, size) else !Tiled(h'))
  {
    CutOfFinds(h, a, size, align);
    CommitLength(h, a, size, align);
    NextBlock(h, a);
    if size + HEADER_SIZE >= TWO_64 {
      var h' := Commit(h, a, size, align).heap;
      var b :| b in h'.hdrs && h'.hdrs[b].length == size;
      OverlongIsNotTiled(h', b, size);
    } else {
      FittingSizeGrants(h, a, size, align);
    }
  }

  lemma FittingSizeGrants(h: HeapState, a: nat, size: Word, align: Word)
    requires Tiled(h) && a in h.hdrs && PowerOfTwo(align) && Commit(h, a, size, align).Got? && size + HEADER_SIZE < TWO_64
    ensures var Got(h', p) := Commit(h, a, size, align);
      if CutFits(h, a, size, align) then Grants(h, h', p, size) else !Tiled(h')
  {
    CutOfFinds(h, a, size, align);
    match CutOf(h, a, size, align) {
      case Middle(at) => MiddleGrants(h, a, at, size);
      case Back(at) => BackGrants(h, a, at, size);
      case Front =>
        if HasRoom(h, a, size) {
          FrontGrants(h, a, size);
        } else {
          FrontWithoutRoomBreaks(h, a, size);
        }
      case Whole => WholeGrants(h, a, size);
    }
  }

  // --- allocAligned as a whole ---------------------------------------------------------------

  /** Block `a` is one that `allocAligned` passes over: in use, or without a place for the payload. */
  predicate PassedOver(h: HeapState, a: nat, align: nat)
    requires a in h.hdrs && align > 0
  {
    h.hdrs[a].Used() || Misses(h.hdrs[a].length, a + HEADER_SIZE, align)
  }

  /** Block `a` makes the inner loop go round for ever: it has a place after padding, but neither cut fits. */
  predicate Stuck(h: HeapState, a: nat, size: Word, align: nat)
    requires a in h.hdrs && align > 0
  {
    var addr, length := a + HEADER_SIZE, h.hdrs[a].length;
    && !PassedOver(h, a, align) && FirstPlace(addr, align) != addr
    && Rest(length, addr, align) != size && Rest(length, addr, align) <= Wrap(size + HEADER_SIZE)
  }

  /** The lowest block that is not passed over. */
  ghost predicate Reaches(h: HeapState, a: nat, align: nat)
    requires align > 0
  {
    && a in h.hdrs && !PassedOver(h, a, align)
    && forall b | b in h.hdrs && b < a :: PassedOver(h, b, align)
  }

  lemma PassIsPassedOver(h: HeapState, a: nat, size: Word, align: Word)
    requires Tiled(h) && a in h.hdrs && PowerOfTwo(align)
    ensures align > 0
    ensures CutOf(h, a, size, align) == Pass <==> PassedOver(h, a, align)
    ensures CutOf(h, a, size, align) == Spin <==> Stuck(h, a, size, align)
  {
    CutOfDecides(h, a, size, align);
  }

  /** The address order of the chain makes the first block found the lowest. */
  lemma FirstIsLowest(h: HeapState, c: seq<nat>, size: Word, align: Word, i: nat, b: nat)
    requires c == Chain(h) && Tiled(h) && Ascending(c) && i < |c| && (forall a | a in c :: a in h.hdrs)
    requires forall j: nat | j < i :: CutOf(h, c[j], size, align) == Pass
    requires b in h.hdrs && b < c[i]
    ensures CutOf(h, b, size, align) == Pass
  {
    hide CutOf, Walk;
    var j: nat :| j < |c| && c[j] == b;
  }

  lemma FirstCutReaches(h: HeapState, size: Word, align: Word)
    requires Tiled(h) && PowerOfTwo(align)
    ensures align > 0
    ensures var r := FirstCut(h, Chain(h), size, align);
      if r.Some? then Reaches(h, r.value, align) else forall a | a in h.hdrs :: PassedOver(h, a, align)
  {
    PowerOfTwoBound(align);
    var c := Chain(h);
    ChainAscends(h, c);
    hide CutOf, PassedOver, Walk;
    var r := FirstCut(h, c, size, align);
    if r.Some? {
      var i := FirstCutIsFirst(h, c, size, align);
      PassIsPassedOver(h, c[i], size, align);
      forall b | b in h.hdrs && b < c[i]
        ensures PassedOver(h, b, align)
      {
        FirstIsLowest(h, c, size, align, i, b);
        PassIsPassedOver(h, b, size, align);
      }
    } else {
      forall a | a in h.hdrs
        ensures PassedOver(h, a, align)
      {
        PassIsPassedOver(h, a, size, align);
      }
    }
  }

  lemma ReachesOne(h: HeapState, a: nat, b: nat, align: nat)
    requires align > 0 && Reaches(h, a, align) && Reaches(h, b, align)
    ensures a == b
  {
    hide PassedOver;
  }

  /**
    Which of its three ends `allocAligned` comes to. It returns none if and only if it passes over every block; it never
    returns if and only if the lowest block it does not pass over is one it gets stuck on; else it cuts that block.
   */
  lemma AlignedEnds(h: HeapState, size: Word, align: Word)
    requires Tiled(h) && PowerOfTwo(align)
    ensures align > 0
    ensures var r := AllocAligned(h, size, align);
      && (r.NoRoom? <==> forall a | a in h.hdrs :: PassedOver(h, a, align))
      && (r.Diverges? <==> exists a :: Reaches(h, a, align) && Stuck(h, a, size, align))
      && (r.Got? <==> exists a :: Reaches(h, a, align) && !Stuck(h, a, size, align))
      && (forall a :: Reaches(h, a, align) ==> r == Commit(h, a, size, align))
  {
    PowerOfTwoBound(align);
    FirstCutReaches(h, size, align);
    var f := FirstCut(h, Chain(h), size, align);
    if f.Some? {
      PassIsPassedOver(h, f.value, size, align);
      CommitEnds(h, f.value, size, align);
      hide Commit, Stuck, PassedOver, FirstCut, CutOf;
      forall b | Reaches(h, b, align)
        ensures b == f.value
      {
        ReachesOne(h, f.value, b, align);
      }
    }
  }

  lemma CommitEnds(h: HeapState, a: nat, size: Word, align: Word)
    requires a in h.hdrs && CutOf(h, a, size, align) != Pass
    ensures var r := Commit(h, a, size, align);
      !r.NoRoom? && (r.Diverges? <==> CutOf(h, a, size, align) == Spin)
  {
  }

  /**
    A completed `allocAligned` returns a multiple of the alignment. It keeps the tiling if and only if the requested
    size does not wrap and a block cut at its end had room for the new header; then the live blocks are the old ones
    and one of exactly the requested length.
   */
  lemma AlignedKeepsHeap(h: HeapState, size: Word, align: Word)
    requires Tiled(h) && PowerOfTwo(align)
    ensures align > 0
    ensures AllocAligned(h, size, align).Got? ==>
      var Got(h', p) := AllocAligned(h, size, align);
      var a := FirstCut(h, Chain(h), size, align).value;
      && p % align == 0 && h'.base == h.base && h'.size == h.size
      && (Tiled(h') <==> CutFits(h, a, size, align))
      && (Tiled(h') ==> Grants(h, h', p, size))
  {
    PowerOfTwoBound(align);
    if AllocAligned(h, size, align).Got? {
      var a := FirstCut(h, Chain(h), size, align).value;
      CommitKeepsRegion(h, a, size, align);
      CommitGrants(h, a, size, align);
    }
  }

  // --- inputs at which it hangs, and at which it hands out more than there is ---------------------

  lemma SixtyFour()
    ensures PowerOfTwo(64)
  {
    assert Pow2(6) == 64;
  }

  /** What `allocAligned` does with a heap of one free block of 128 bytes, as its numbers decide. */
  lemma SingleBlockEnds(h: HeapState, a: nat, size: Word, align: Word)
    requires Tiled(h) && (forall b :: b in h.hdrs <==> b == a) && !h.hdrs[a].Used() && h.hdrs[a].length == 128
    requires PowerOfTwo(align) && align > 0 && !Misses(128, a + HEADER_SIZE, align)
    ensures AllocAligned(h, size, align) == Commit(h, a, size, align)
    ensures var at, rest := FirstPlace(a + HEADER_SIZE, align), Rest(128, a + HEADER_SIZE, align);
      AllocAligned(h, size, align).Diverges? <==> at != a + HEADER_SIZE && rest != size && rest <= Wrap(size + HEADER_SIZE)
  {
    hide AllocAligned, Tiled, Misses, FirstPlace, Rest, Commit;
    AlignedEnds(h, size, align);
    assert Reaches(h, a, align);
  }

  lemma StuckNumbers(addr: nat, align: nat)
    requires addr == 4128 && align == 64
    ensures !Misses(128, addr, align) && FirstPlace(addr, align) == 4160 && Rest(128, addr, align) == 96
  {
  }

  lemma AlignedNumbers(addr: nat, align: nat)
    requires addr == 4096 && align == 64
    ensures !Misses(128, addr, align) && FirstPlace(addr, align) == addr
  {
  }

  lemma HangsAt(h: HeapState, size: Word, align: Word)
    requires Tiled(h) && (forall b :: b in h.hdrs <==> b == 4096) && !h.hdrs[4096].Used() && h.hdrs[4096].length == 128
    requires size == 70 && align == 64
    ensures AllocAligned(h, size, align).Diverges?
  {
    hide AllocAligned, Tiled, Misses, FirstPlace, Rest, Commit;
    SixtyFour();
    StuckNumbers(4096 + HEADER_SIZE, align);
    SingleBlockEnds(h, 4096, size, align);
  }

  /**
    70 bytes aligned to 64 from a fresh heap of 160 bytes at 4096: 96 bytes are left from 4160 on, too many for
    one cut and too few for two.
   */
  lemma HangsOnFreshHeap()
    ensures AllocAligned(ResetState(4096, 160), 70, 64).Diverges?
  {
    hide AllocAligned, Tiled, ResetState;
    OneBlock(4096, 160);
    HangsAt(ResetState(4096, 160), 70, 64);
  }

  lemma GrantsTooMuchAt(h: HeapState, size: Word, align: Word)
    requires Tiled(h) && (forall b :: b in h.hdrs <==> b == 4064) && !h.hdrs[4064].Used() && h.hdrs[4064].length == 128
    requires size == 1000 && align == 64
    ensures var r := AllocAligned(h, size, align); r.Got? && r.p == 4096 && !Tiled(r.heap)
  {
    hide AllocAligned, Tiled, Misses, FirstPlace, Rest, CutOf, Split, Take, CutMiddle, CutBack;
    SixtyFour();
    AlignedNumbers(4064 + HEADER_SIZE, align);
    SingleBlockEnds(h, 4064, size, align);
    CutOfDecides(h, 4064, size, align);
    CommitGrants(h, 4064, size, align);
  }

  /** 1000 bytes from a fresh heap with 128, at an address that is aligned already: the call succeeds. */
  lemma GrantsMoreThanThereIs()
    ensures var r := AllocAligned(ResetState(4064, 160), 1000, 64); r.Got? && r.p == 4096 && !Tiled(r.heap)
  {
    hide AllocAligned, Tiled, ResetState;
    OneBlock(4064, 160);
    GrantsTooMuchAt(ResetState(4064, 160), 1000, 64);
  }
}
