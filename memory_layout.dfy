/** The address arithmetic of the software virtual-memory translator: the
    build-time constants, the per-level table index of a virtual address,
    the bookkeeping records of the frame search, and the cyclic page
    distance that picks the page to evict. */
module MemoryLayout {
  import opened Arith

  /** The constants of the memory header, taken as parameters:
      OFFSET_WIDTH, TABLES_DEPTH, VIRTUAL_ADDRESS_WIDTH and NUM_FRAMES. */
  datatype Config = Config(offsetWidth: nat, tablesDepth: nat, virtualAddressWidth: nat, numFrames: nat)
  {
    /** PAGE_SIZE, the number of words in a frame and in a page table. */
    function PageSize(): nat { Pow2(offsetWidth) }

    /** VIRTUAL_MEMORY_SIZE, the number of virtual words. */
    function VirtualMemorySize(): nat { Pow2(virtualAddressWidth) }

    /** NUM_PAGES, VIRTUAL_MEMORY_SIZE >> OFFSET_WIDTH. */
    function NumPages(): nat { VirtualMemorySize() / PageSize() }

    /** The assumptions the translator relies on: a non-empty offset, at
        least one table level, at least the root frame, and enough levels of
        OFFSET_WIDTH bits each to cover a virtual address. */
    predicate Valid() {
      && offsetWidth >= 1 && tablesDepth >= 1 && numFrames >= 1
      && offsetWidth <= virtualAddressWidth <= (tablesDepth + 1) * offsetWidth
    }
  }

  /** `absolute`: the magnitude of a value. */
  function Absolute(value: int): (r: int)
    ensures r >= 0 && (r == value || r == -value)
  {
    if value < 0 then value * -1 else value
  }

  /** `min`: the smaller of two values. */
  function Min(x: int, y: int): (r: int)
    ensures r <= x && r <= y && (r == x || r == y)
  {
    if x < y then x else y
  }

  /** `calculateOffset`: the OFFSET_WIDTH-bit field of the virtual address
      that indexes the table at `depth`; at depth TABLES_DEPTH it is the
      offset inside the page. The mask is the remainder by PAGE_SIZE. */
  function CalculateOffset(c: Config, virtualAddress: nat, depth: nat): (r: nat)
    requires depth <= c.tablesDepth
    ensures r < c.PageSize()
  {
    (virtualAddress / Pow2((c.tablesDepth - depth) * c.offsetWidth)) % c.PageSize()
  }

  /** The page number read off the first k table indices of the address,
      most significant first: `(pageIndex << OFFSET_WIDTH) + i` at every
      level, as the frame search builds it. */
  function PagePrefix(c: Config, virtualAddress: nat, k: nat): nat
    requires k <= c.tablesDepth
  {
    if k == 0 then 0
    else PagePrefix(c, virtualAddress, k - 1) * c.PageSize() + CalculateOffset(c, virtualAddress, k - 1)
  }

  lemma {:induction false} Pow2Mono(a: nat, b: nat)
    requires a <= b
    ensures Pow2(a) <= Pow2(b)
  {
    if a < b {
      Pow2Mono(a, b - 1);
    }
  }

  /** The exponent of the shift that drops the last TABLES_DEPTH + 1 - k
      fields of an address. */
  function Span(c: Config, k: nat): nat
    requires k <= c.tablesDepth + 1
  {
    var levels: nat := c.tablesDepth + 1 - k;
    MulMono(0, levels, c.offsetWidth);
    levels * c.offsetWidth
  }

  lemma SpanStep(c: Config, k: nat)
    requires 1 <= k <= c.tablesDepth
    ensures Span(c, k - 1) == Span(c, k) + c.offsetWidth
    ensures (c.tablesDepth - (k - 1)) * c.offsetWidth == Span(c, k)
  {
  }

  /** Splitting a quotient by p * s into its quotient and remainder by s. */
  lemma DivSplit(a: nat, p: nat, s: nat)
    requires p > 0 && s > 0
    ensures (a / (p * s)) * s + (a / p) % s == a / p
  {
    DivDiv(a, p, s);
  }

  /** The first k indices of an address spell its top bits. */
  lemma {:induction false} PagePrefixShift(c: Config, virtualAddress: nat, k: nat)
    requires c.Valid() && virtualAddress < c.VirtualMemorySize() && k <= c.tablesDepth
    ensures PagePrefix(c, virtualAddress, k) == virtualAddress / Pow2(Span(c, k))
  {
    if k == 0 {
      Pow2Mono(c.virtualAddressWidth, Span(c, 0));
      DivModUnique(virtualAddress, Pow2(Span(c, 0)), 0, virtualAddress);
    } else {
      PagePrefixShift(c, virtualAddress, k - 1);
      SpanStep(c, k);
      Pow2Add(Span(c, k), c.offsetWidth);
      DivSplit(virtualAddress, Pow2(Span(c, k)), c.PageSize());
    }
  }

  /** The table indices of all TABLES_DEPTH levels rebuild the page number
      `virtualAddress >> OFFSET_WIDTH`, and with the offset at the last level
      they rebuild the whole address. */
  lemma PageFromOffsets(c: Config, virtualAddress: nat)
    requires c.Valid() && virtualAddress < c.VirtualMemorySize()
    ensures PagePrefix(c, virtualAddress, c.tablesDepth) == virtualAddress / c.PageSize()
    ensures virtualAddress == PagePrefix(c, virtualAddress, c.tablesDepth) * c.PageSize()
                              + CalculateOffset(c, virtualAddress, c.tablesDepth)
  {
    PagePrefixShift(c, virtualAddress, c.tablesDepth);
    assert Span(c, c.tablesDepth) == c.offsetWidth;
    assert (c.tablesDepth - c.tablesDepth) * c.offsetWidth == 0;
    DivModUnique(virtualAddress, c.PageSize(), virtualAddress / c.PageSize(), virtualAddress % c.PageSize());
  }

  /** NUM_PAGES is 2^(VIRTUAL_ADDRESS_WIDTH - OFFSET_WIDTH). */
  lemma NumPagesPow2(c: Config)
    requires c.Valid()
    ensures c.NumPages() == Pow2(c.virtualAddressWidth - c.offsetWidth) && c.NumPages() >= 1
  {
    Pow2Add(c.virtualAddressWidth - c.offsetWidth, c.offsetWidth);
    DivModUnique(c.VirtualMemorySize(), c.PageSize(), Pow2(c.virtualAddressWidth - c.offsetWidth), 0);
  }

  /** The distance of `updateMaxPageInfo`: how far pageIndex lies from the
      page being brought in, going round the page numbers either way. */
  function CyclicDistance(c: Config, replacedPage: int, pageIndex: int): int {
    Min(c.NumPages() - Absolute(replacedPage - pageIndex), Absolute(replacedPage - pageIndex))
  }

  /** For pages in range the distance lies in [0, NUM_PAGES / 2], does not
      depend on the order of its arguments, and is 0 exactly for the same page. */
  lemma CyclicDistanceBounds(c: Config, a: int, b: int)
    requires 0 <= a < c.NumPages() && 0 <= b < c.NumPages()
    ensures 0 <= CyclicDistance(c, a, b) <= c.NumPages() / 2
    ensures CyclicDistance(c, a, b) == CyclicDistance(c, b, a)
    ensures CyclicDistance(c, a, b) == 0 <==> a == b
  {
    assert Absolute(a - b) == Absolute(b - a);
  }

  /** `FrameInfo`: the empty table the search last found, and the entry of
      its parent table that points to it. */
  datatype FrameInfo = FrameInfo(frame: int, parentFrame: int, offset: int)

  /** `MaxPageInfo`: the page the search found farthest from the page
      being brought in, the frame holding it and its parent entry. */
  datatype MaxPageInfo = MaxPageInfo(frame: int, distance: int, pageNumber: int, parentFrame: int, offset: int)

  /** `initializeFrameInfo`: nothing found yet. */
  const NoFrame := FrameInfo(0, 0, 0)

  /** `initializeMaxPageInfo`: nothing found yet, with a distance below any real one. */
  const NoPage := MaxPageInfo(0, -1, 0, 0, 0)

  /** `updateMaxPageInfo`: the candidate is replaced by the page at
      `pageIndex` exactly when that page lies strictly farther away, so of
      several pages at the largest distance the first one seen is kept. */
  function UpdateMaxPageInfo(c: Config, replacedPage: int, pageIndex: int, currentFrame: int,
                             ancestor: int, offset: int, info: MaxPageInfo): (r: MaxPageInfo)
    ensures r.distance >= info.distance && r.distance >= CyclicDistance(c, replacedPage, pageIndex)
    ensures r == info || (r.distance > info.distance
                          && r == MaxPageInfo(currentFrame, CyclicDistance(c, replacedPage, pageIndex), pageIndex, ancestor, offset))
  {
    var distance := CyclicDistance(c, replacedPage, pageIndex);
    if distance > info.distance then MaxPageInfo(currentFrame, distance, pageIndex, ancestor, offset)
    else info
  }
}
