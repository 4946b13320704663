/** The translator: hierarchical page tables held in RAM frames, a walk
    from the root table that allocates a missing table or page on the way
    down, and the frame selection that hands out an empty table, an unused
    frame, or the frame of the page farthest from the one being brought in. */
module VirtualMemory {
  import opened MemoryLayout
  import opened PhysicalMemory
  import opened PageTree
  import opened TreeShape
  import opened TreeUpdate

  /** What `selectFrameForPage` leaves behind, from RAM m and swap store
      `swap` before it to m1 and swap1 after it, given the result of the
      search: in this order, the recorded empty table cut from its parent,
      the first unused frame with nothing changed, the farthest page saved
      to swap and cut from its parent, or -1 with nothing changed. */
  ghost predicate Selected(c: Config, m: seq<int>, swap: map<int, seq<int>>, protected: seq<int>, replacedPage: int,
                           r: int, m1: seq<int>, swap1: map<int, seq<int>>)
    requires c.Valid()
  {
    var s := SearchResult(c, m, protected, replacedPage);
    && (s.frameInfo.frame != 0 ==>
          && r == s.frameInfo.frame && swap1 == swap
          && 0 <= Addr(c, s.frameInfo.parentFrame, s.frameInfo.offset) < |m|
          && m1 == m[Addr(c, s.frameInfo.parentFrame, s.frameInfo.offset) := 0])
    && (s.frameInfo.frame == 0 && s.frameIndex < c.numFrames ==>
          r == s.frameIndex && swap1 == swap && m1 == m)
    && (s.frameInfo.frame == 0 && s.frameIndex >= c.numFrames && s.maxPageInfo.frame != 0 ==>
          && r == s.maxPageInfo.frame
          && swap1 == swap[s.maxPageInfo.pageNumber := FrameContents(c, m, s.maxPageInfo.frame)]
          && 0 <= Addr(c, s.maxPageInfo.parentFrame, s.maxPageInfo.offset) < |m|
          && m1 == m[Addr(c, s.maxPageInfo.parentFrame, s.maxPageInfo.offset) := 0])
    && (s.frameInfo.frame == 0 && s.frameIndex >= c.numFrames && s.maxPageInfo.frame == 0 ==>
          r == -1 && swap1 == swap && m1 == m)
  }

  /** What the second half of `handleEmptyAddress` leaves behind, from RAM m
      and swap store `swap` to m2 and swap2: word a (the missing entry) is
      set to frame x; at the last level the page is then restored into x and
      dropped from swap when swap holds it, and x is left as it is when swap
      does not; above the last level x is zeroed. */
  ghost predicate Filled(c: Config, m: seq<int>, swap: map<int, seq<int>>, a: int, x: int, page: int, last: bool,
                         m2: seq<int>, swap2: map<int, seq<int>>)
  {
    && 0 <= a < |m| && (page in swap ==> |swap[page]| == c.PageSize())
    && var w := m[a := x];
       && (last && page in swap ==> m2 == CopyFrame(c, w, x, swap[page]) && swap2 == swap - {page})
       && (last && page !in swap ==> m2 == w && swap2 == swap)
       && (!last ==> m2 == ZeroFrame(c, w, x) && swap2 == swap)
  }

  class Translator {
    /** The physical memory the tables and pages live in. */
    const pm: Memory
    /** Ghost bookkeeping: the level of each used frame (frames 0 .. n-1)
        and the parent entry that names it. */
    ghost var level: seq<nat>
    ghost var parent: seq<Link>

    ghost predicate Valid()
      reads this, pm, pm.ram
    {
      pm.Valid() && Shape(pm.cfg, pm.ram[..], level, parent)
    }

    constructor (pm: Memory)
      requires pm.Valid()
      ensures this.pm == pm && level == [] && parent == []
    {
      this.pm := pm;
      level := [];
      parent := [];
    }

    /** `initializeFrame`: every word of the frame is set to 0. */
    method InitializeFrame(frameNumber: int)
      requires pm.Valid() && 0 <= frameNumber < pm.cfg.numFrames
      modifies pm.ram
      ensures pm.ram[..] == ZeroFrame(pm.cfg, old(pm.ram[..]), frameNumber)
    {
      ghost var before := pm.ram[..];
      var i := 0;
      while i < pm.cfg.PageSize()
        invariant 0 <= i <= pm.cfg.PageSize()
        invariant pm.ram.Length == |before|
        invariant forall a :: 0 <= a < pm.ram.Length ==>
                    pm.ram[a] == if Addr(pm.cfg, frameNumber, 0) <= a < Addr(pm.cfg, frameNumber, 0) + i then 0 else before[a]
      {
        AddrBounds(pm.cfg, frameNumber, i);
        pm.PMwrite(Addr(pm.cfg, frameNumber, i), 0);
        i := i + 1;
      }
    }

    /** `VMinitialize`: the root table is cleared, and it is the only table. */
    method VMinitialize()
      requires pm.Valid()
      modifies this, pm.ram
      ensures Valid() && level == [0] && parent == [Link(0, 0)]
      ensures pm.ram[..] == ZeroFrame(pm.cfg, old(pm.ram[..]), 0)
    {
      InitializeFrame(0);
      ZeroFrameEmpty(pm.cfg, old(pm.ram[..]), 0);
      InitialShape(pm.cfg, pm.ram[..]);
      level := [0];
      parent := [Link(0, 0)];
    }

    /** `updatePageTableAddresses`: the frame reached below `depth` is noted. */
    method UpdatePageTableAddresses(pageTableAddresses: array<int>, depth: int, tempAddress: int)
      requires 0 <= depth + 1 < pageTableAddresses.Length
      modifies pageTableAddresses
      ensures pageTableAddresses[..] == old(pageTableAddresses[..])[depth + 1 := tempAddress]
    {
      pageTableAddresses[depth + 1] := tempAddress;
    }

    /** `addPageToTree`: the depth-first search below `currentFrame`. It
        counts every table and page it meets, weighs every page, and records
        the table if it is empty and not on the path being translated. It
        ends with what `VisitAll` computes over `Nodes`. */
    method AddPageToTree(pageTable: array<int>, depth: nat, pageIndex: int, currentFrame: int,
                         frameInfo: FrameInfo, ancestor: int, offset: int, frameIndex: int,
                         replacedPage: int, maxPageInfo: MaxPageInfo)
      returns (frameInfo': FrameInfo, frameIndex': int, maxPageInfo': MaxPageInfo)
      requires pm.Valid() && depth <= pm.cfg.tablesDepth && pageTable.Length >= pm.cfg.tablesDepth
      requires Bounded(pm.cfg, pm.ram[..], currentFrame, depth)
      ensures Search(frameInfo', frameIndex', maxPageInfo')
              == VisitAll(pm.cfg, pm.ram[..], pageTable[..pm.cfg.tablesDepth], replacedPage,
                          Search(frameInfo, frameIndex, maxPageInfo),
                          Nodes(pm.cfg, pm.ram[..], currentFrame, depth, pageIndex, ancestor, offset))
      decreases pm.cfg.tablesDepth - depth, 2
    {
      var c := pm.cfg;
      ghost var m, protected := pm.ram[..], pageTable[..pm.cfg.tablesDepth];
      if depth == c.tablesDepth {
        maxPageInfo' := UpdateMaxPageInfo(c, replacedPage, pageIndex, currentFrame, ancestor, offset, maxPageInfo);
        LeafVisit(c, m, protected, replacedPage, Search(frameInfo, frameIndex, maxPageInfo),
                  currentFrame, pageIndex, ancestor, offset);
        return frameInfo, frameIndex + 1, maxPageInfo';
      }
      var isEmptyFrame;
      frameInfo', frameIndex', maxPageInfo', isEmptyFrame :=
        ScanTable(pageTable, depth, pageIndex, currentFrame, frameInfo, frameIndex + 1, replacedPage, maxPageInfo);
      TableVisit(c, m, protected, replacedPage, Search(frameInfo, frameIndex, maxPageInfo),
                 currentFrame, depth, pageIndex, ancestor, offset, Search(frameInfo', frameIndex', maxPageInfo'));
      if isEmptyFrame {
        var onPath := OnPath(pageTable, currentFrame);
        if !onPath {
          frameInfo' := FrameInfo(currentFrame, ancestor, offset);
        }
      }
    }

    /** The scan of `addPageToTree` over the entries of a table: the search
        goes below every non-zero entry in turn, and the table is found empty
        exactly when all its entries are 0. */
    method ScanTable(pageTable: array<int>, depth: nat, pageIndex: int, currentFrame: int,
                     frameInfo: FrameInfo, frameIndex: int, replacedPage: int, maxPageInfo: MaxPageInfo)
      returns (frameInfo': FrameInfo, frameIndex': int, maxPageInfo': MaxPageInfo, isEmptyFrame: bool)
      requires pm.Valid() && depth < pm.cfg.tablesDepth && pageTable.Length >= pm.cfg.tablesDepth
      requires Bounded(pm.cfg, pm.ram[..], currentFrame, depth)
      ensures Search(frameInfo', frameIndex', maxPageInfo')
              == VisitAll(pm.cfg, pm.ram[..], pageTable[..pm.cfg.tablesDepth], replacedPage,
                          Search(frameInfo, frameIndex, maxPageInfo),
                          Children(pm.cfg, pm.ram[..], currentFrame, depth, pageIndex, pm.cfg.PageSize()))
      ensures isEmptyFrame <==> EmptyTable(pm.cfg, pm.ram[..], currentFrame)
      decreases pm.cfg.tablesDepth - depth, 1
    {
      var c := pm.cfg;
      ghost var m, protected := pm.ram[..], pageTable[..pm.cfg.tablesDepth];
      ghost var s1 := Search(frameInfo, frameIndex, maxPageInfo);
      frameInfo', frameIndex', maxPageInfo' := frameInfo, frameIndex, maxPageInfo;
      isEmptyFrame := true;
      var i := 0;
      while i < c.PageSize()
        invariant 0 <= i <= c.PageSize()
        invariant pm.ram[..] == m && pageTable[..c.tablesDepth] == protected
        invariant Search(frameInfo', frameIndex', maxPageInfo')
                  == VisitAll(c, m, protected, replacedPage, s1, Children(c, m, currentFrame, depth, pageIndex, i))
        invariant isEmptyFrame <==> forall j :: 0 <= j < i ==> Entry(c, m, currentFrame, j) == 0
      {
        ghost var before := Search(frameInfo', frameIndex', maxPageInfo');
        var address;
        frameInfo', frameIndex', maxPageInfo', address :=
          ScanEntry(pageTable, depth, pageIndex, currentFrame, i, frameInfo', frameIndex', replacedPage, maxPageInfo');
        assert pm.ram[..] == m && pageTable[..c.tablesDepth] == protected;
        if address != 0 {
          isEmptyFrame := false;
        }
        ScanStep(c, m, protected, replacedPage, s1, currentFrame, depth, pageIndex, i, address,
                 before, Search(frameInfo', frameIndex', maxPageInfo'));
        ChildrenEmptyStep(c, m, currentFrame, depth, pageIndex, i);
        i := i + 1;
      }
    }

    /** One entry of the scan: the entry is read, and the search goes
        below it when it is not 0. */
    method ScanEntry(pageTable: array<int>, depth: nat, pageIndex: int, currentFrame: int, i: int,
                     frameInfo: FrameInfo, frameIndex: int, replacedPage: int, maxPageInfo: MaxPageInfo)
      returns (frameInfo': FrameInfo, frameIndex': int, maxPageInfo': MaxPageInfo, address: int)
      requires pm.Valid() && depth < pm.cfg.tablesDepth && pageTable.Length >= pm.cfg.tablesDepth
      requires Bounded(pm.cfg, pm.ram[..], currentFrame, depth) && 0 <= i < pm.cfg.PageSize()
      ensures address == Entry(pm.cfg, pm.ram[..], currentFrame, i)
      ensures Search(frameInfo', frameIndex', maxPageInfo')
              == if address != 0
                 then VisitAll(pm.cfg, pm.ram[..], pageTable[..pm.cfg.tablesDepth], replacedPage,
                               Search(frameInfo, frameIndex, maxPageInfo),
                               Nodes(pm.cfg, pm.ram[..], address, depth + 1,
                                     pageIndex * pm.cfg.PageSize() + i, currentFrame, i))
                 else Search(frameInfo, frameIndex, maxPageInfo)
      decreases pm.cfg.tablesDepth - depth, 0
    {
      var c := pm.cfg;
      ghost var m, protected := pm.ram[..], pageTable[..pm.cfg.tablesDepth];
      BoundedChild(c, pm.ram[..], currentFrame, depth, i);
      AddrBounds(c, currentFrame, i);
      address := pm.PMread(Addr(c, currentFrame, i));
      assert address == Entry(c, pm.ram[..], currentFrame, i);
      frameInfo', frameIndex', maxPageInfo' := frameInfo, frameIndex, maxPageInfo;
      if address != 0 {
        var updatedIndex := pageIndex * c.PageSize() + i;
        frameInfo', frameIndex', maxPageInfo' :=
          AddPageToTree(pageTable, depth + 1, updatedIndex, address, frameInfo, currentFrame, i,
                        frameIndex, replacedPage, maxPageInfo);
        assert pm.ram[..] == m && pageTable[..c.tablesDepth] == protected;
      }
    }

    /** The last loop of `addPageToTree`: whether the frame is among the
        first TABLES_DEPTH entries of the path being translated. */
    method OnPath(pageTable: array<int>, currentFrame: int) returns (found: bool)
      requires pageTable.Length >= pm.cfg.tablesDepth
      ensures found <==> currentFrame in pageTable[..pm.cfg.tablesDepth]
    {
      var i := 0;
      while i < pm.cfg.tablesDepth
        invariant 0 <= i <= pm.cfg.tablesDepth
        invariant forall j :: 0 <= j < i ==> pageTable[j] != currentFrame
      {
        if pageTable[i] == currentFrame {
          assert pageTable[..pm.cfg.tablesDepth][i] == currentFrame;
          return true;
        }
        i := i + 1;
      }
      return false;
    }

    /** `clearFrame`: the parent entry of the recorded table is cleared. */
    method ClearFrame(frameInfo: FrameInfo)
      requires pm.Valid() && 0 <= frameInfo.parentFrame < pm.cfg.numFrames
      requires 0 <= frameInfo.offset < pm.cfg.PageSize()
      modifies pm.ram
      ensures 0 <= Addr(pm.cfg, frameInfo.parentFrame, frameInfo.offset) < pm.ram.Length
      ensures pm.ram[..] == old(pm.ram[..])[Addr(pm.cfg, frameInfo.parentFrame, frameInfo.offset) := 0]
    {
      AddrBounds(pm.cfg, frameInfo.parentFrame, frameInfo.offset);
      pm.PMwrite(Addr(pm.cfg, frameInfo.parentFrame, frameInfo.offset), 0);
    }

    /** `clearMaxPageFrame`: the parent entry of the page to evict is cleared. */
    method ClearMaxPageFrame(maxPageInfo: MaxPageInfo)
      requires pm.Valid() && 0 <= maxPageInfo.parentFrame < pm.cfg.numFrames
      requires 0 <= maxPageInfo.offset < pm.cfg.PageSize()
      modifies pm.ram
      ensures 0 <= Addr(pm.cfg, maxPageInfo.parentFrame, maxPageInfo.offset) < pm.ram.Length
      ensures pm.ram[..] == old(pm.ram[..])[Addr(pm.cfg, maxPageInfo.parentFrame, maxPageInfo.offset) := 0]
    {
      AddrBounds(pm.cfg, maxPageInfo.parentFrame, maxPageInfo.offset);
      pm.PMwrite(Addr(pm.cfg, maxPageInfo.parentFrame, maxPageInfo.offset), 0);
    }

    /** `selectFrameForPage`: after the search, in this order of preference,
        an empty table off the path (cut from its parent), the first unused
        frame, the frame of the farthest page (saved to swap and cut from its
        parent), or -1 when there is none of these. */
    method SelectFrameForPage(pageTable: array<int>, replacedPage: int) returns (r: int)
      requires Valid() && pageTable.Length >= pm.cfg.tablesDepth
      modifies pm, pm.ram
      ensures pm.Valid()
      ensures Selected(pm.cfg, old(pm.ram[..]), old(pm.swap), old(pageTable[..pm.cfg.tablesDepth]), replacedPage,
                       r, pm.ram[..], pm.swap)
      ensures r == -1 ==> |level| == pm.cfg.numFrames && pm.swap == old(pm.swap) && pm.ram[..] == old(pm.ram[..])
      ensures r != -1 ==> Handout(pm.cfg, old(pm.ram[..]), level, parent, old(pageTable[..pm.cfg.tablesDepth]), r, pm.ram[..])
    {
      ghost var m, protected := pm.ram[..], pageTable[..pm.cfg.tablesDepth];
      ghost var s := SearchResult(pm.cfg, m, protected, replacedPage);
      SearchFacts(pm.cfg, m, level, parent, protected, replacedPage);
      if s.frameInfo.frame != 0 {
        ParentEntry(pm.cfg, m, level, parent, s.frameInfo.frame);
      }
      if s.maxPageInfo.frame != 0 {
        ParentEntry(pm.cfg, m, level, parent, s.maxPageInfo.frame);
      }
      ShapeBounded(pm.cfg, m, level, parent, 0);
      var frameInfo := NoFrame;
      var maxPageInfo := NoPage;
      var frameIndex := 0;
      frameInfo, frameIndex, maxPageInfo :=
        AddPageToTree(pageTable, 0, 0, 0, frameInfo, 0, 0, frameIndex, replacedPage, maxPageInfo);
      assert Search(frameInfo, frameIndex, maxPageInfo) == s;
      if frameInfo.frame != 0 {
        ClearFrame(frameInfo);
        return frameInfo.frame;
      }
      if frameIndex < pm.cfg.numFrames {
        return frameIndex;
      }
      if maxPageInfo.frame != 0 {
        pm.PMevict(maxPageInfo.frame, maxPageInfo.pageNumber);
        ClearMaxPageFrame(maxPageInfo);
        return maxPageInfo.frame;
      }
      return -1;
    }

    /** The step after `selectFrameForPage` in `handleEmptyAddress`: the
        missing entry is set to the frame handed out, which becomes a page
        (restored from swap) at the last level and an empty table otherwise. */
    method HandleEmptyAddress(physicalAddress: int, offset: int, virtualAddress: nat, depth: nat,
                              pageTableAddresses: array<int>)
      returns (r: int, ghost m1: seq<int>, ghost swap1: map<int, seq<int>>)
      requires Valid() && virtualAddress < pm.cfg.VirtualMemorySize() && depth < pm.cfg.tablesDepth
      requires pageTableAddresses.Length >= pm.cfg.tablesDepth
      requires MappedTo(pm.cfg, pm.ram[..], virtualAddress, depth)
      requires physicalAddress == Walk(pm.cfg, pm.ram[..], virtualAddress, depth)
      requires offset == CalculateOffset(pm.cfg, virtualAddress, depth)
      requires Entry(pm.cfg, pm.ram[..], physicalAddress, offset) == 0
      requires forall k :: 0 <= k <= depth ==>
                 Walk(pm.cfg, pm.ram[..], virtualAddress, k) in pageTableAddresses[..pm.cfg.tablesDepth]
      modifies this, pm, pm.ram
      ensures Valid()
      ensures r == -1 ==> && pm.ram[..] == old(pm.ram[..]) && pm.swap == old(pm.swap)
                          && level == old(level) && |level| == pm.cfg.numFrames
      ensures r != -1 ==> && 1 <= r < pm.cfg.numFrames
                          && MappedTo(pm.cfg, pm.ram[..], virtualAddress, depth + 1)
                          && Walk(pm.cfg, pm.ram[..], virtualAddress, depth + 1) == r
                          && forall j :: 0 <= j <= depth ==>
                               Walk(pm.cfg, pm.ram[..], virtualAddress, j) == Walk(pm.cfg, old(pm.ram[..]), virtualAddress, j)
      ensures r != -1 && depth + 1 < pm.cfg.tablesDepth ==> EmptyTable(pm.cfg, pm.ram[..], r)
      ensures Selected(pm.cfg, old(pm.ram[..]), old(pm.swap), old(pageTableAddresses[..pm.cfg.tablesDepth]),
                       virtualAddress / pm.cfg.PageSize(), r, m1, swap1)
      ensures r != -1 ==> Filled(pm.cfg, m1, swap1, Addr(pm.cfg, physicalAddress, offset), r,
                                 virtualAddress / pm.cfg.PageSize(), depth + 1 == pm.cfg.tablesDepth, pm.ram[..], pm.swap)
    {
      var c := pm.cfg;
      ghost var m0, protected := pm.ram[..], pageTableAddresses[..c.tablesDepth];
      var tempAddress := SelectFrameForPage(pageTableAddresses, virtualAddress / c.PageSize());
      m1, swap1 := pm.ram[..], pm.swap;
      if tempAddress == -1 {
        return -1, m1, swap1;
      }
      LinkFrame(physicalAddress, offset, virtualAddress, depth, tempAddress, m0, protected);
      r := tempAddress;
    }

    /** The second half of `handleEmptyAddress`: the selected frame is
        written into the missing entry, then filled (a restored page at the
        last level, zeros above it), and the bookkeeping follows it. */
    method LinkFrame(physicalAddress: int, offset: int, virtualAddress: nat, depth: nat, tempAddress: int,
                     ghost m0: seq<int>, ghost protected: seq<int>)
      requires pm.Valid() && Shape(pm.cfg, m0, level, parent)
      requires virtualAddress < pm.cfg.VirtualMemorySize() && depth < pm.cfg.tablesDepth
      requires MappedTo(pm.cfg, m0, virtualAddress, depth)
      requires physicalAddress == Walk(pm.cfg, m0, virtualAddress, depth)
      requires offset == CalculateOffset(pm.cfg, virtualAddress, depth)
      requires Entry(pm.cfg, m0, physicalAddress, offset) == 0
      requires forall k :: 0 <= k <= depth ==> Walk(pm.cfg, m0, virtualAddress, k) in protected
      requires Handout(pm.cfg, m0, level, parent, protected, tempAddress, pm.ram[..])
      modifies this, pm, pm.ram
      ensures Valid()
      ensures && 1 <= tempAddress < pm.cfg.numFrames
              && MappedTo(pm.cfg, pm.ram[..], virtualAddress, depth + 1)
              && Walk(pm.cfg, pm.ram[..], virtualAddress, depth + 1) == tempAddress
              && forall j :: 0 <= j <= depth ==>
                   Walk(pm.cfg, pm.ram[..], virtualAddress, j) == Walk(pm.cfg, m0, virtualAddress, j)
      ensures depth + 1 < pm.cfg.tablesDepth ==> EmptyTable(pm.cfg, pm.ram[..], tempAddress)
      ensures Filled(pm.cfg, old(pm.ram[..]), old(pm.swap), Addr(pm.cfg, physicalAddress, offset), tempAddress,
                     virtualAddress / pm.cfg.PageSize(), depth + 1 == pm.cfg.tablesDepth, pm.ram[..], pm.swap)
    {
      var c := pm.cfg;
      ghost var m1 := pm.ram[..];
      WalkPlaced(c, m0, level, parent, virtualAddress, depth);
      AddrBounds(c, physicalAddress, offset);
      pm.PMwrite(Addr(c, physicalAddress, offset), tempAddress);
      ghost var m2 := pm.ram[..];
      if depth == c.tablesDepth - 1 {
        ghost var swap2 := pm.swap;
        pm.PMrestore(tempAddress, virtualAddress / c.PageSize());
        if virtualAddress / c.PageSize() in swap2 {
          CopyFrameOutside(c, m2, tempAddress, swap2[virtualAddress / c.PageSize()]);
        }
      } else {
        InitializeFrame(tempAddress);
        CopyFrameOutside(c, m2, tempAddress, seq(c.PageSize(), _ => 0));
        ZeroFrameEmpty(c, m2, tempAddress);
      }
      ghost var m3 := pm.ram[..];
      assert SameOutside(c, m2, m3, tempAddress);
      LinkHandout(c, m0, level, parent, protected, virtualAddress, depth, tempAddress, m1, m3);
      level := Assign(level, tempAddress, depth + 1);
      parent := Assign(parent, tempAddress, Link(physicalAddress, offset));
    }

    /** `traverseVirtualAddress`: the walk from the root table down the
        entries the address selects, allocating every missing table and the
        missing page on the way; the frame of the page, or -1 when no frame
        could be handed out. A path already present is only read. */
    method TraverseVirtualAddress(virtualAddress: nat) returns (r: int)
      requires Valid() && virtualAddress < pm.cfg.VirtualMemorySize()
      modifies this, pm, pm.ram
      ensures Valid()
      ensures r == -1 ==> |level| == pm.cfg.numFrames
      ensures r != -1 ==> && 1 <= r < pm.cfg.numFrames
                          && MappedTo(pm.cfg, pm.ram[..], virtualAddress, pm.cfg.tablesDepth)
                          && Walk(pm.cfg, pm.ram[..], virtualAddress, pm.cfg.tablesDepth) == r
      ensures old(MappedTo(pm.cfg, pm.ram[..], virtualAddress, pm.cfg.tablesDepth)) ==>
                && r != -1 && r == old(Walk(pm.cfg, pm.ram[..], virtualAddress, pm.cfg.tablesDepth))
                && pm.ram[..] == old(pm.ram[..]) && pm.swap == old(pm.swap)
                && level == old(level) && parent == old(parent)
    {
      var c := pm.cfg;
      var physicalAddress := 0;
      var pageTableAddresses := new int[c.tablesDepth + 1];
      for i := 0 to c.tablesDepth
        modifies pageTableAddresses
        invariant forall k :: 0 <= k < i ==> pageTableAddresses[k] == 0
      {
        pageTableAddresses[i] := 0;
      }
      var depth := 0;
      while depth < c.tablesDepth
        invariant 0 <= depth <= c.tablesDepth
        invariant Valid()
        invariant MappedTo(c, pm.ram[..], virtualAddress, depth)
        invariant physicalAddress == Walk(c, pm.ram[..], virtualAddress, depth)
        invariant Noted(c, pm.ram[..], virtualAddress, depth, pageTableAddresses[..])
        invariant old(MappedTo(pm.cfg, pm.ram[..], virtualAddress, pm.cfg.tablesDepth)) ==>
                    && pm.ram[..] == old(pm.ram[..]) && pm.swap == old(pm.swap)
                    && level == old(level) && parent == old(parent)
      {
        if old(MappedTo(pm.cfg, pm.ram[..], virtualAddress, pm.cfg.tablesDepth)) {
          WalkPlaced(c, pm.ram[..], level, parent, virtualAddress, c.tablesDepth);
          assert Walk(c, pm.ram[..], virtualAddress, depth + 1) > 0;
        }
        physicalAddress := Descend(physicalAddress, virtualAddress, depth, pageTableAddresses);
        if physicalAddress == -1 {
          return -1;
        }
        depth := depth + 1;
      }
      WalkPlaced(c, pm.ram[..], level, parent, virtualAddress, c.tablesDepth);
      r := physicalAddress;
    }

    /** One step of the walk of `traverseVirtualAddress`: the entry below
        the table at `depth` is read, a missing one is filled by
        `handleEmptyAddress`, and the frame reached is noted. */
    method Descend(physicalAddress: int, virtualAddress: nat, depth: nat, pageTableAddresses: array<int>)
        returns (next: int)
      requires Valid() && virtualAddress < pm.cfg.VirtualMemorySize() && depth < pm.cfg.tablesDepth
      requires pageTableAddresses != pm.ram
      requires MappedTo(pm.cfg, pm.ram[..], virtualAddress, depth)
      requires physicalAddress == Walk(pm.cfg, pm.ram[..], virtualAddress, depth)
      requires Noted(pm.cfg, pm.ram[..], virtualAddress, depth, pageTableAddresses[..])
      modifies this, pm, pm.ram, pageTableAddresses
      ensures Valid()
      ensures next == -1 ==> |level| == pm.cfg.numFrames
      ensures next != -1 ==>
                && 1 <= next < pm.cfg.numFrames
                && MappedTo(pm.cfg, pm.ram[..], virtualAddress, depth + 1)
                && next == Walk(pm.cfg, pm.ram[..], virtualAddress, depth + 1)
                && Noted(pm.cfg, pm.ram[..], virtualAddress, depth + 1, pageTableAddresses[..])
      ensures old(Walk(pm.cfg, pm.ram[..], virtualAddress, depth + 1)) != 0 ==>
                && next == old(Walk(pm.cfg, pm.ram[..], virtualAddress, depth + 1))
                && pm.ram[..] == old(pm.ram[..]) && pm.swap == old(pm.swap)
                && level == old(level) && parent == old(parent)
    {
      var c := pm.cfg;
      ghost var m, path := pm.ram[..], pageTableAddresses[..];
      var offset := CalculateOffset(c, virtualAddress, depth);
      WalkPlaced(c, m, level, parent, virtualAddress, depth);
      AddrBounds(c, physicalAddress, offset);
      var optional := pm.PMread(Addr(c, physicalAddress, offset));
      assert optional == Walk(c, m, virtualAddress, depth + 1);
      UpdatePageTableAddresses(pageTableAddresses, depth, optional);
      if optional == 0 {
        NotedProtects(c, m, virtualAddress, depth, path);
        assert pageTableAddresses[..c.tablesDepth] == path[..c.tablesDepth];
        ghost var m1, swap1;
        optional, m1, swap1 := HandleEmptyAddress(physicalAddress, offset, virtualAddress, depth, pageTableAddresses);
        if optional == -1 {
          return -1;
        }
      }
      ghost var m2 := pm.ram[..];
      MappedStep(c, m, m2, virtualAddress, depth);
      WalkPlaced(c, m2, level, parent, virtualAddress, depth + 1);
      NotedStep(c, m, m2, virtualAddress, depth, path, optional);
      UpdatePageTableAddresses(pageTableAddresses, depth, optional);
      assert pageTableAddresses[..] == path[depth + 1 := optional];
      next := optional;
    }

    /** `VMread`: the word at a virtual address, through a walk that may
        bring its page in; 0 (and the value left as it was) for an address
        outside the virtual memory or a walk that found no frame. */
    method VMread(virtualAddress: nat, previous: int) returns (r: int, value: int)
      requires Valid()
      modifies this, pm, pm.ram
      ensures Valid()
      ensures r == 0 || r == 1
      ensures r == 0 ==> value == previous
      ensures virtualAddress >= pm.cfg.VirtualMemorySize() ==>
                r == 0 && pm.ram[..] == old(pm.ram[..]) && pm.swap == old(pm.swap) && level == old(level)
      ensures r == 0 && virtualAddress < pm.cfg.VirtualMemorySize() ==> |level| == pm.cfg.numFrames
      ensures r == 1 ==> && virtualAddress < pm.cfg.VirtualMemorySize()
                         && MappedTo(pm.cfg, pm.ram[..], virtualAddress, pm.cfg.tablesDepth)
                         && value == Entry(pm.cfg, pm.ram[..], Walk(pm.cfg, pm.ram[..], virtualAddress, pm.cfg.tablesDepth),
                                           virtualAddress % pm.cfg.PageSize())
      ensures virtualAddress < pm.cfg.VirtualMemorySize() && old(MappedTo(pm.cfg, pm.ram[..], virtualAddress, pm.cfg.tablesDepth)) ==>
                && r == 1 && pm.ram[..] == old(pm.ram[..]) && pm.swap == old(pm.swap) && level == old(level)
                && value == old(Entry(pm.cfg, pm.ram[..], Walk(pm.cfg, pm.ram[..], virtualAddress, pm.cfg.tablesDepth),
                                      virtualAddress % pm.cfg.PageSize()))
    {
      r, value := 0, previous;
      if virtualAddress < pm.cfg.VirtualMemorySize() {
        var physicalAddress := TraverseVirtualAddress(virtualAddress);
        if physicalAddress != -1 {
          var offset := virtualAddress % pm.cfg.PageSize();
          AddrBounds(pm.cfg, physicalAddress, offset);
          value := pm.PMread(Addr(pm.cfg, physicalAddress, offset));
          r := 1;
        }
      }
    }

    /** `VMwrite`: the word at a virtual address is set, through a walk that
        may bring its page in; 0 for an address outside the virtual memory or
        a walk that found no frame. Afterwards the address is mapped and holds
        the value, so a read of it is a walk that changes nothing. */
    method VMwrite(virtualAddress: nat, value: int) returns (r: int)
      requires Valid()
      modifies this, pm, pm.ram
      ensures Valid()
      ensures r == 0 || r == 1
      ensures virtualAddress >= pm.cfg.VirtualMemorySize() ==>
                r == 0 && pm.ram[..] == old(pm.ram[..]) && pm.swap == old(pm.swap) && level == old(level)
      ensures r == 0 && virtualAddress < pm.cfg.VirtualMemorySize() ==> |level| == pm.cfg.numFrames
      ensures r == 1 ==> && virtualAddress < pm.cfg.VirtualMemorySize()
                         && MappedTo(pm.cfg, pm.ram[..], virtualAddress, pm.cfg.tablesDepth)
                         && value == Entry(pm.cfg, pm.ram[..], Walk(pm.cfg, pm.ram[..], virtualAddress, pm.cfg.tablesDepth),
                                           virtualAddress % pm.cfg.PageSize())
      ensures virtualAddress < pm.cfg.VirtualMemorySize() && old(MappedTo(pm.cfg, pm.ram[..], virtualAddress, pm.cfg.tablesDepth)) ==>
                && r == 1 && pm.swap == old(pm.swap) && level == old(level)
                && 0 <= Addr(pm.cfg, old(Walk(pm.cfg, pm.ram[..], virtualAddress, pm.cfg.tablesDepth)), virtualAddress % pm.cfg.PageSize()) < pm.ram.Length
                && pm.ram[..] == old(pm.ram[..])[Addr(pm.cfg, old(Walk(pm.cfg, pm.ram[..], virtualAddress, pm.cfg.tablesDepth)),
                                                      virtualAddress % pm.cfg.PageSize()) := value]
    {
      r := 0;
      if virtualAddress < pm.cfg.VirtualMemorySize() {
        var physicalAddress := TraverseVirtualAddress(virtualAddress);
        if physicalAddress != -1 {
          var c := pm.cfg;
          var offset := virtualAddress % c.PageSize();
          ghost var m := pm.ram[..];
          WalkPlaced(c, m, level, parent, virtualAddress, c.tablesDepth);
          AddrBounds(c, physicalAddress, offset);
          pm.PMwrite(Addr(c, physicalAddress, offset), value);
          PageWrite(c, m, level, parent, virtualAddress, offset, value, pm.ram[..]);
          r := 1;
        }
      }
    }

    /** A write followed by a read of the same address: the read finds the
        page in place and returns the value written. */
    method WriteThenRead(virtualAddress: nat, value: int, previous: int) returns (w: int, r: int, read: int)
      requires Valid()
      modifies this, pm, pm.ram
      ensures Valid()
      ensures w == 1 ==> r == 1 && read == value
      ensures w == 0 ==> r == 0 && read == previous
    {
      w := VMwrite(virtualAddress, value);
      r, read := 0, previous;
      if w == 1 {
        r, read := VMread(virtualAddress, previous);
      }
    }
  }
}
