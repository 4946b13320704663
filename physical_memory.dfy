/** Physical memory as the translator sees it: NUM_FRAMES frames of
    PAGE_SIZE words in one RAM array, and a swap store of evicted pages.
    The bodies of PMevict and PMrestore are not part of this model; they are
    given the behaviour their names and uses describe. */
module PhysicalMemory {
  import opened Arith
  import opened MemoryLayout

  /** The RAM index of word i of frame f: `f * PAGE_SIZE + i`. */
  function Addr(c: Config, f: int, i: int): int {
    f * c.PageSize() + i
  }

  /** Word i of frame f in the RAM snapshot m (0 for a word outside RAM). */
  function Entry(c: Config, m: seq<int>, f: int, i: int): int {
    if 0 <= i < c.PageSize() && 0 <= Addr(c, f, i) < |m| then m[Addr(c, f, i)] else 0
  }

  /** Every word of every frame lies in RAM. */
  lemma AddrBounds(c: Config, f: int, i: int)
    requires 0 <= f < c.numFrames && 0 <= i < c.PageSize()
    ensures 0 <= Addr(c, f, i) < c.numFrames * c.PageSize()
  {
    SlotBounds(f, i, c.numFrames, c.PageSize());
  }

  /** Distinct (frame, offset) pairs name distinct words. */
  lemma AddrInjective(c: Config, f: int, i: int, g: int, j: int)
    requires 0 <= i < c.PageSize() && 0 <= j < c.PageSize()
    requires Addr(c, f, i) == Addr(c, g, j)
    ensures f == g && i == j
  {
    DivModUnique(Addr(c, f, i), c.PageSize(), f, i);
    DivModUnique(Addr(c, g, j), c.PageSize(), g, j);
  }

  /** The words of frame f, as PMevict saves them. */
  function FrameContents(c: Config, m: seq<int>, f: int): (r: seq<int>)
    ensures |r| == c.PageSize()
    ensures forall i :: 0 <= i < c.PageSize() ==> r[i] == Entry(c, m, f, i)
  {
    seq(c.PageSize(), i requires 0 <= i < c.PageSize() => Entry(c, m, f, i))
  }

  /** The snapshot m with frame f overwritten by `content`. */
  function CopyFrame(c: Config, m: seq<int>, f: int, content: seq<int>): (r: seq<int>)
    requires |content| == c.PageSize()
    ensures |r| == |m|
  {
    seq(|m|, a requires 0 <= a < |m| =>
      if 0 <= a - Addr(c, f, 0) < c.PageSize() then content[a - Addr(c, f, 0)] else m[a])
  }

  /** The snapshot m with frame f set to zero, as `initializeFrame` leaves it. */
  function ZeroFrame(c: Config, m: seq<int>, f: int): (r: seq<int>)
    ensures |r| == |m|
  {
    CopyFrame(c, m, f, seq(c.PageSize(), _ => 0))
  }

  /** Copying into frame f changes the words of frame f and no other word. */
  lemma CopyFrameEntry(c: Config, m: seq<int>, f: int, content: seq<int>, g: int, i: int)
    requires |content| == c.PageSize() && 0 <= i < c.PageSize()
    ensures Entry(c, CopyFrame(c, m, f, content), g, i)
            == if g == f && 0 <= Addr(c, g, i) < |m| then content[i] else Entry(c, m, g, i)
  {
    var a := Addr(c, g, i);
    if 0 <= a < |m| {
      var k := a - Addr(c, f, 0);
      assert k == (g - f) * c.PageSize() + i;
      if g != f && 0 <= k < c.PageSize() {
        DivModUnique(k, c.PageSize(), g - f, i);
        DivModUnique(k, c.PageSize(), 0, k);
      }
    }
  }

  /** The words of frame f after `CopyFrame` are the copied ones. */
  lemma CopyFrameContents(c: Config, m: seq<int>, f: int, content: seq<int>)
    requires |content| == c.PageSize() && 0 <= f < c.numFrames && |m| == c.numFrames * c.PageSize()
    ensures FrameContents(c, CopyFrame(c, m, f, content), f) == content
  {
    forall i | 0 <= i < c.PageSize()
      ensures FrameContents(c, CopyFrame(c, m, f, content), f)[i] == content[i]
    {
      AddrBounds(c, f, i);
      CopyFrameEntry(c, m, f, content, f, i);
    }
  }

  /** RAM and swap store. */
  class Memory {
    const cfg: Config
    const ram: array<int>
    /** Evicted pages by page number. */
    var swap: map<int, seq<int>>

    ghost predicate Valid()
      reads this
    {
      && cfg.Valid()
      && ram.Length == cfg.numFrames * cfg.PageSize()
      && forall page :: page in swap ==> |swap[page]| == cfg.PageSize()
    }

    /** A RAM of zero words and an empty swap store. */
    constructor (cfg: Config)
      requires cfg.Valid()
      ensures Valid() && this.cfg == cfg && swap == map[]
      ensures forall a :: 0 <= a < ram.Length ==> ram[a] == 0
    {
      this.cfg := cfg;
      MulMono(0, cfg.numFrames, cfg.PageSize());
      ram := new int[cfg.numFrames * cfg.PageSize()](_ => 0);
      swap := map[];
    }

    /** `PMread`: the word at a RAM index. */
    method PMread(physicalAddress: int) returns (value: int)
      requires Valid() && 0 <= physicalAddress < ram.Length
      ensures value == ram[physicalAddress]
    {
      value := ram[physicalAddress];
    }

    /** `PMwrite`: one RAM word is set. */
    method PMwrite(physicalAddress: int, value: int)
      requires Valid() && 0 <= physicalAddress < ram.Length
      modifies ram
      ensures ram[..] == old(ram[..])[physicalAddress := value]
    {
      ram[physicalAddress] := value;
    }

    /** `PMevict`: the words of the frame are saved under the page number. */
    method PMevict(frameIndex: int, evictedPageIndex: int)
      requires Valid() && 0 <= frameIndex < cfg.numFrames
      modifies this
      ensures Valid()
      ensures swap == old(swap)[evictedPageIndex := FrameContents(cfg, ram[..], frameIndex)]
    {
      swap := swap[evictedPageIndex := FrameContents(cfg, ram[..], frameIndex)];
    }

    /** `PMrestore`: a page held in the swap store is copied into the frame
        and leaves the store; a page never evicted leaves the frame as it is. */
    method PMrestore(frameIndex: int, restoredPageIndex: int)
      requires Valid() && 0 <= frameIndex < cfg.numFrames
      modifies this, ram
      ensures Valid()
      ensures restoredPageIndex in old(swap) ==>
                ram[..] == CopyFrame(cfg, old(ram[..]), frameIndex, old(swap)[restoredPageIndex])
                && swap == old(swap) - {restoredPageIndex}
      ensures restoredPageIndex !in old(swap) ==> ram[..] == old(ram[..]) && swap == old(swap)
    {
      if restoredPageIndex in swap {
        var content := swap[restoredPageIndex];
        ghost var before := ram[..];
        forall a | 0 <= a < ram.Length {
          ram[a] := if 0 <= a - Addr(cfg, frameIndex, 0) < cfg.PageSize() then content[a - Addr(cfg, frameIndex, 0)] else ram[a];
        }
        assert ram[..] == CopyFrame(cfg, before, frameIndex, content);
        swap := swap - {restoredPageIndex};
      }
    }
  }
}
