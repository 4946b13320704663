/** The page tables as they lie in RAM, read from a snapshot of it: the
    path a virtual address takes from the root table in frame 0, and the
    depth-first search of `addPageToTree` written as the sequence of nodes
    it visits, with the bookkeeping it does at each node. */
module PageTree {
  import opened Arith
  import opened MemoryLayout
  import opened PhysicalMemory

  /** A table whose PAGE_SIZE entries are all 0. */
  ghost predicate EmptyTable(c: Config, m: seq<int>, frame: int) {
    forall i :: 0 <= i < c.PageSize() ==> Entry(c, m, frame, i) == 0
  }

  /** Every non-zero entry met below the table in `frame` at `depth` names a
      frame of RAM, so the search below it reads only RAM words. */
  ghost predicate Bounded(c: Config, m: seq<int>, frame: int, depth: nat)
    requires depth <= c.tablesDepth
    decreases c.tablesDepth - depth
  {
    && 0 <= frame < c.numFrames
    && (depth < c.tablesDepth ==>
          forall i :: 0 <= i < c.PageSize() ==>
            0 <= Entry(c, m, frame, i) < c.numFrames
            && (Entry(c, m, frame, i) != 0 ==> Bounded(c, m, Entry(c, m, frame, i), depth + 1)))
  }

  /** The frame the translation of `virtualAddress` reaches after k levels:
      frame 0 at the root, then the entry at the level's index. */
  ghost function Walk(c: Config, m: seq<int>, virtualAddress: nat, k: nat): int
    requires k <= c.tablesDepth
  {
    if k == 0 then 0
    else Entry(c, m, Walk(c, m, virtualAddress, k - 1), CalculateOffset(c, virtualAddress, k - 1))
  }

  /** The first k entries on the path of `virtualAddress` are present. */
  ghost predicate MappedTo(c: Config, m: seq<int>, virtualAddress: nat, k: nat)
    requires k <= c.tablesDepth
  {
    forall j :: 1 <= j <= k ==> Walk(c, m, virtualAddress, j) != 0
  }

  /** One table or page the search visits: its frame, its depth
      (TABLES_DEPTH for a page), the page index built on the way down, and
      the parent entry it was reached through. */
  datatype Node = Node(frame: int, depth: nat, page: int, parent: int, offset: int)

  /** The nodes the search visits from `frame` at `depth`, in the order it
      visits them: the node itself, then below each non-zero entry in turn. */
  ghost function Nodes(c: Config, m: seq<int>, frame: int, depth: nat, page: int, parent: int, offset: int): seq<Node>
    requires depth <= c.tablesDepth
    decreases c.tablesDepth - depth, c.PageSize() + 1
  {
    [Node(frame, depth, page, parent, offset)]
      + (if depth == c.tablesDepth then [] else Children(c, m, frame, depth, page, c.PageSize()))
  }

  /** The nodes below entries 0 .. n-1 of the table in `frame`; the entry at
      index i extends the page index to `(page << OFFSET_WIDTH) + i`. */
  ghost function Children(c: Config, m: seq<int>, frame: int, depth: nat, page: int, n: nat): seq<Node>
    requires depth < c.tablesDepth
    decreases c.tablesDepth - depth, n
  {
    if n == 0 then []
    else
      var e := Entry(c, m, frame, n - 1);
      Children(c, m, frame, depth, page, n - 1)
        + (if e != 0 then Nodes(c, m, e, depth + 1, page * c.PageSize() + (n - 1), frame, n - 1) else [])
  }

  /** What the search carries: the empty table found, the count of visited
      nodes (`frameIndex`) and the farthest page found. */
  datatype Search = Search(frameInfo: FrameInfo, frameIndex: int, maxPageInfo: MaxPageInfo)

  /** A table the search may hand out: empty, and not on the path being
      translated (`protected` holds that path's frames). */
  ghost predicate Candidate(c: Config, m: seq<int>, protected: seq<int>, n: Node) {
    n.depth < c.tablesDepth && EmptyTable(c, m, n.frame) && n.frame !in protected
  }

  /** The bookkeeping at one node: count it; at a page, weigh it against
      the farthest page so far; at a candidate table, record it. */
  ghost function Visit(c: Config, m: seq<int>, protected: seq<int>, replacedPage: int, s: Search, n: Node): Search {
    if n.depth == c.tablesDepth then
      Search(s.frameInfo, s.frameIndex + 1,
             UpdateMaxPageInfo(c, replacedPage, n.page, n.frame, n.parent, n.offset, s.maxPageInfo))
    else if Candidate(c, m, protected, n) then
      Search(FrameInfo(n.frame, n.parent, n.offset), s.frameIndex + 1, s.maxPageInfo)
    else
      Search(s.frameInfo, s.frameIndex + 1, s.maxPageInfo)
  }

  /** The bookkeeping over a sequence of visited nodes, first to last. */
  ghost function VisitAll(c: Config, m: seq<int>, protected: seq<int>, replacedPage: int, s: Search, ns: seq<Node>): Search
    decreases |ns|
  {
    if ns == [] then s
    else VisitAll(c, m, protected, replacedPage, Visit(c, m, protected, replacedPage, s, ns[0]), ns[1..])
  }

  /** What `selectFrameForPage`'s search ends with: from the root, with
      nothing found and a zero count. */
  ghost function SearchResult(c: Config, m: seq<int>, protected: seq<int>, replacedPage: int): Search
    requires c.Valid()
  {
    VisitAll(c, m, protected, replacedPage, Search(NoFrame, 0, NoPage), Nodes(c, m, 0, 0, 0, 0, 0))
  }

  lemma {:induction false} VisitAllAppend(c: Config, m: seq<int>, protected: seq<int>, replacedPage: int,
                                          s: Search, a: seq<Node>, b: seq<Node>)
    ensures VisitAll(c, m, protected, replacedPage, s, a + b)
            == VisitAll(c, m, protected, replacedPage, VisitAll(c, m, protected, replacedPage, s, a), b)
    decreases |a|
  {
    if a != [] {
      assert (a + b)[0] == a[0] && (a + b)[1..] == a[1..] + b;
      VisitAllAppend(c, m, protected, replacedPage, Visit(c, m, protected, replacedPage, s, a[0]), a[1..], b);
    } else {
      assert a + b == b;
    }
  }

  /** At a page the search counts it and weighs it, and goes no deeper. */
  lemma LeafVisit(c: Config, m: seq<int>, protected: seq<int>, replacedPage: int, s: Search,
                  frame: int, page: int, parent: int, offset: int)
    ensures VisitAll(c, m, protected, replacedPage, s, Nodes(c, m, frame, c.tablesDepth, page, parent, offset))
            == Search(s.frameInfo, s.frameIndex + 1,
                      UpdateMaxPageInfo(c, replacedPage, page, frame, parent, offset, s.maxPageInfo))
  {
    assert Nodes(c, m, frame, c.tablesDepth, page, parent, offset) == [Node(frame, c.tablesDepth, page, parent, offset)];
  }

  /** An empty table has nothing below it. */
  lemma {:induction false} EmptyChildren(c: Config, m: seq<int>, frame: int, depth: nat, page: int, n: nat)
    requires depth < c.tablesDepth && n <= c.PageSize() && EmptyTable(c, m, frame)
    ensures Children(c, m, frame, depth, page, n) == []
  {
    if n > 0 {
      EmptyChildren(c, m, frame, depth, page, n - 1);
    }
  }

  /** The scan of a table, one entry further: below a non-zero entry the
      search goes on from where it was. */
  lemma ScanStep(c: Config, m: seq<int>, protected: seq<int>, replacedPage: int, s1: Search,
                 frame: int, depth: nat, page: int, i: nat, e: int, before: Search, after: Search)
    requires depth < c.tablesDepth && e == Entry(c, m, frame, i)
    requires before == VisitAll(c, m, protected, replacedPage, s1, Children(c, m, frame, depth, page, i))
    requires after == if e != 0
                      then VisitAll(c, m, protected, replacedPage, before,
                                    Nodes(c, m, e, depth + 1, page * c.PageSize() + i, frame, i))
                      else before
    ensures after == VisitAll(c, m, protected, replacedPage, s1, Children(c, m, frame, depth, page, i + 1))
  {
    var last := if e != 0 then Nodes(c, m, e, depth + 1, page * c.PageSize() + i, frame, i) else [];
    VisitAllAppend(c, m, protected, replacedPage, s1, Children(c, m, frame, depth, page, i), last);
    assert Children(c, m, frame, depth, page, i + 1) == Children(c, m, frame, depth, page, i) + last;
  }

  /** At a table the search counts it, scans its entries, and then
      records it if it is a candidate (a candidate has nothing below it,
      so recording it before or after the scan is the same). */
  lemma TableVisit(c: Config, m: seq<int>, protected: seq<int>, replacedPage: int, s: Search,
                   frame: int, depth: nat, page: int, parent: int, offset: int, after: Search)
    requires depth < c.tablesDepth
    requires after == VisitAll(c, m, protected, replacedPage, Search(s.frameInfo, s.frameIndex + 1, s.maxPageInfo),
                               Children(c, m, frame, depth, page, c.PageSize()))
    ensures var n := Node(frame, depth, page, parent, offset);
            var r := VisitAll(c, m, protected, replacedPage, s, Nodes(c, m, frame, depth, page, parent, offset));
            r == if Candidate(c, m, protected, n)
                 then Search(FrameInfo(frame, parent, offset), after.frameIndex, after.maxPageInfo)
                 else after
  {
    var n := Node(frame, depth, page, parent, offset);
    var kids := Children(c, m, frame, depth, page, c.PageSize());
    var ns := Nodes(c, m, frame, depth, page, parent, offset);
    assert ns == [n] + kids && ns[0] == n && ns[1..] == kids;
    if Candidate(c, m, protected, n) {
      EmptyChildren(c, m, frame, depth, page, c.PageSize());
    }
  }

  /** Nothing lies below entries 0 .. n-1 exactly when they are all 0. */
  lemma {:induction false} ChildrenNone(c: Config, m: seq<int>, frame: int, depth: nat, page: int, n: nat)
    requires depth < c.tablesDepth
    ensures Children(c, m, frame, depth, page, n) == [] <==> forall j :: 0 <= j < n ==> Entry(c, m, frame, j) == 0
  {
    if n > 0 {
      ChildrenNone(c, m, frame, depth, page, n - 1);
      var e := Entry(c, m, frame, n - 1);
      if e != 0 {
        assert |Nodes(c, m, e, depth + 1, page * c.PageSize() + (n - 1), frame, n - 1)| > 0;
      }
    }
  }

  /** One more entry leaves nothing below the entries exactly when nothing
      lay below the earlier ones and the new entry is 0. */
  lemma ChildrenEmptyStep(c: Config, m: seq<int>, frame: int, depth: nat, page: int, n: nat)
    requires depth < c.tablesDepth
    ensures Children(c, m, frame, depth, page, n + 1) == [] <==>
            Children(c, m, frame, depth, page, n) == [] && Entry(c, m, frame, n) == 0
  {
    var e := Entry(c, m, frame, n);
    if e != 0 {
      assert |Nodes(c, m, e, depth + 1, page * c.PageSize() + n, frame, n)| > 0;
    }
  }

  /** The search below a non-zero entry reads RAM words only. */
  lemma BoundedChild(c: Config, m: seq<int>, frame: int, depth: nat, i: int)
    requires depth < c.tablesDepth && Bounded(c, m, frame, depth) && 0 <= i < c.PageSize()
    ensures 0 <= frame < c.numFrames && 0 <= Entry(c, m, frame, i) < c.numFrames
    ensures Entry(c, m, frame, i) != 0 ==> Bounded(c, m, Entry(c, m, frame, i), depth + 1)
  {
  }

  /** `frameIndex` rises by exactly one per visited node. */
  lemma {:induction false} VisitAllCount(c: Config, m: seq<int>, protected: seq<int>, replacedPage: int,
                                         s: Search, ns: seq<Node>)
    ensures VisitAll(c, m, protected, replacedPage, s, ns).frameIndex == s.frameIndex + |ns|
    decreases |ns|
  {
    if ns != [] {
      VisitAllCount(c, m, protected, replacedPage, Visit(c, m, protected, replacedPage, s, ns[0]), ns[1..]);
    }
  }

  /** Candidate k is the last candidate in ns. */
  ghost predicate LastCandidate(c: Config, m: seq<int>, protected: seq<int>, ns: seq<Node>, k: int) {
    && 0 <= k < |ns| && Candidate(c, m, protected, ns[k])
    && forall j :: k < j < |ns| ==> !Candidate(c, m, protected, ns[j])
  }

  /** The recorded table is the last candidate visited; with no candidate
      nothing is recorded. A frame on the path is never a candidate. */
  lemma {:induction false} VisitAllEmpty(c: Config, m: seq<int>, protected: seq<int>, replacedPage: int,
                                         s: Search, ns: seq<Node>)
    ensures var r := VisitAll(c, m, protected, replacedPage, s, ns);
            && ((forall k :: 0 <= k < |ns| ==> !Candidate(c, m, protected, ns[k])) ==> r.frameInfo == s.frameInfo)
            && (forall k :: LastCandidate(c, m, protected, ns, k) ==>
                  r.frameInfo == FrameInfo(ns[k].frame, ns[k].parent, ns[k].offset))
            && (r.frameInfo == s.frameInfo
                || exists k :: 0 <= k < |ns| && Candidate(c, m, protected, ns[k])
                               && r.frameInfo == FrameInfo(ns[k].frame, ns[k].parent, ns[k].offset))
    decreases |ns|
  {
    if ns != [] {
      var s' := Visit(c, m, protected, replacedPage, s, ns[0]);
      VisitAllEmpty(c, m, protected, replacedPage, s', ns[1..]);
      var r := VisitAll(c, m, protected, replacedPage, s, ns);
      assert r == VisitAll(c, m, protected, replacedPage, s', ns[1..]);
      forall k | LastCandidate(c, m, protected, ns, k)
        ensures r.frameInfo == FrameInfo(ns[k].frame, ns[k].parent, ns[k].offset)
      {
        if k > 0 {
          assert LastCandidate(c, m, protected, ns[1..], k - 1);
        } else {
          assert forall j :: 0 <= j < |ns[1..]| ==> !Candidate(c, m, protected, ns[1..][j]) by {
            forall j | 0 <= j < |ns[1..]| ensures !Candidate(c, m, protected, ns[1..][j]) {
              assert ns[1..][j] == ns[j + 1];
            }
          }
        }
      }
      if r.frameInfo != s.frameInfo {
        if r.frameInfo == s'.frameInfo {
          assert Candidate(c, m, protected, ns[0]);
        } else {
          var k :| 0 <= k < |ns[1..]| && Candidate(c, m, protected, ns[1..][k])
                   && r.frameInfo == FrameInfo(ns[1..][k].frame, ns[1..][k].parent, ns[1..][k].offset);
          assert ns[1..][k] == ns[k + 1];
        }
      }
    }
  }

  /** The cyclic distance of a visited page from the page being brought in. */
  ghost function Distance(c: Config, replacedPage: int, n: Node): int {
    CyclicDistance(c, replacedPage, n.page)
  }

  /** Page k lies strictly farther than `base`, no page in ns lies farther,
      and no page before it lies as far. */
  ghost predicate FirstFarthest(c: Config, replacedPage: int, ns: seq<Node>, base: int, k: int) {
    && 0 <= k < |ns| && ns[k].depth == c.tablesDepth && Distance(c, replacedPage, ns[k]) > base
    && (forall j :: 0 <= j < |ns| && ns[j].depth == c.tablesDepth ==>
          Distance(c, replacedPage, ns[j]) <= Distance(c, replacedPage, ns[k]))
    && (forall j :: 0 <= j < k && ns[j].depth == c.tablesDepth ==>
          Distance(c, replacedPage, ns[j]) < Distance(c, replacedPage, ns[k]))
  }

  ghost function PageInfoOf(c: Config, replacedPage: int, n: Node): MaxPageInfo {
    MaxPageInfo(n.frame, Distance(c, replacedPage, n), n.page, n.parent, n.offset)
  }

  /** The farthest page: its distance bounds every visited page's; it is
      the first page at that distance; it stays as it was when no page lies
      farther; and it always comes from a visited page or the start. */
  lemma {:induction false} VisitAllMax(c: Config, m: seq<int>, protected: seq<int>, replacedPage: int,
                                       s: Search, ns: seq<Node>)
    ensures var r := VisitAll(c, m, protected, replacedPage, s, ns).maxPageInfo;
            && r.distance >= s.maxPageInfo.distance
            && (forall k :: 0 <= k < |ns| && ns[k].depth == c.tablesDepth ==>
                  Distance(c, replacedPage, ns[k]) <= r.distance)
            && ((forall k :: 0 <= k < |ns| && ns[k].depth == c.tablesDepth ==>
                  Distance(c, replacedPage, ns[k]) <= s.maxPageInfo.distance) ==> r == s.maxPageInfo)
            && (forall k :: FirstFarthest(c, replacedPage, ns, s.maxPageInfo.distance, k) ==>
                  r == PageInfoOf(c, replacedPage, ns[k]))
            && (r == s.maxPageInfo
                || exists k :: 0 <= k < |ns| && ns[k].depth == c.tablesDepth && r == PageInfoOf(c, replacedPage, ns[k]))
    decreases |ns|
  {
    if ns != [] {
      var s' := Visit(c, m, protected, replacedPage, s, ns[0]);
      var base, base' := s.maxPageInfo.distance, s'.maxPageInfo.distance;
      VisitAllMax(c, m, protected, replacedPage, s', ns[1..]);
      var r := VisitAll(c, m, protected, replacedPage, s, ns).maxPageInfo;
      assert r == VisitAll(c, m, protected, replacedPage, s', ns[1..]).maxPageInfo;
      var tail := ns[1..];
      assert forall j :: 0 <= j < |tail| ==> tail[j] == ns[j + 1];
      forall k | 0 <= k < |ns| && ns[k].depth == c.tablesDepth
        ensures Distance(c, replacedPage, ns[k]) <= r.distance
      {
        if k > 0 {
          assert tail[k - 1] == ns[k];
        }
      }
      if forall k :: 0 <= k < |ns| && ns[k].depth == c.tablesDepth ==> Distance(c, replacedPage, ns[k]) <= base {
        assert s'.maxPageInfo == s.maxPageInfo;
        forall k | 0 <= k < |tail| && tail[k].depth == c.tablesDepth
          ensures Distance(c, replacedPage, tail[k]) <= base'
        {
          assert tail[k] == ns[k + 1];
        }
      }
      forall k | FirstFarthest(c, replacedPage, ns, base, k)
        ensures r == PageInfoOf(c, replacedPage, ns[k])
      {
        if k == 0 {
          assert s'.maxPageInfo == PageInfoOf(c, replacedPage, ns[0]);
          forall j | 0 <= j < |tail| && tail[j].depth == c.tablesDepth
            ensures Distance(c, replacedPage, tail[j]) <= base'
          {
            assert tail[j] == ns[j + 1];
          }
        } else {
          if ns[0].depth == c.tablesDepth {
            assert Distance(c, replacedPage, ns[0]) < Distance(c, replacedPage, ns[k]);
          }
          assert base' < Distance(c, replacedPage, ns[k]);
          assert FirstFarthest(c, replacedPage, tail, base', k - 1) by {
            assert tail[k - 1] == ns[k];
          }
        }
      }
      if r != s.maxPageInfo && r != s'.maxPageInfo {
        var k :| 0 <= k < |tail| && tail[k].depth == c.tablesDepth && r == PageInfoOf(c, replacedPage, tail[k]);
        assert tail[k] == ns[k + 1];
      }
    }
  }
}
