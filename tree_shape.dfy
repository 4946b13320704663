/** The invariant the translator keeps over RAM: the used frames are
    exactly 0 .. n-1, frame 0 holds the root table, and every other used
    frame hangs below exactly one entry of a used table one level up. The
    level and the parent entry of each used frame are ghost bookkeeping;
    RAM itself holds only the entries. From the invariant follow the facts
    the frame selection relies on: the search visits every used frame
    exactly once (so its count is the first free frame), and what it records
    are real tables and pages with the parent entries it noted. */
module TreeShape {
  import opened Arith
  import opened MemoryLayout
  import opened PhysicalMemory
  import opened PageTree

  /** The parent entry of a used frame: the table's frame and the index in it. */
  datatype Link = Link(frame: int, offset: int)

  /** Frame 0 is the root at level 0; every other used frame has a used
      parent one level up. */
  ghost predicate Links(level: seq<nat>, parent: seq<Link>) {
    && 1 <= |level| && |level| == |parent| && level[0] == 0
    && forall g :: 1 <= g < |level| ==> 0 <= parent[g].frame < |level| && level[parent[g].frame] + 1 == level[g]
  }

  /** Used frame g is named by its parent entry in RAM. */
  ghost predicate Linked(c: Config, m: seq<int>, parent: seq<Link>, g: int)
    requires 0 <= g < |parent|
  {
    0 <= parent[g].offset < c.PageSize() && Entry(c, m, parent[g].frame, parent[g].offset) == g
  }

  /** Entry i of table f is 0 or names a used frame whose parent entry it is. */
  ghost predicate ChildOk(c: Config, m: seq<int>, level: seq<nat>, parent: seq<Link>, f: int, i: int) {
    var e := Entry(c, m, f, i);
    e == 0 || (0 < e < |level| && e < |parent| && parent[e] == Link(f, i))
  }

  /** The page-table invariant. */
  ghost predicate Shape(c: Config, m: seq<int>, level: seq<nat>, parent: seq<Link>) {
    && c.Valid() && |m| == c.numFrames * c.PageSize() && |level| <= c.numFrames
    && Links(level, parent)
    && (forall g :: 0 <= g < |level| ==> level[g] <= c.tablesDepth)
    && (forall g :: 1 <= g < |level| ==> Linked(c, m, parent, g))
    && (forall f, i :: 0 <= f < |level| && level[f] < c.tablesDepth && 0 <= i < c.PageSize() ==>
          ChildOk(c, m, level, parent, f, i))
  }

  /** The ancestor of used frame g at level k (g itself from level k up). */
  ghost function Anc(level: seq<nat>, parent: seq<Link>, g: int, k: nat): (a: int)
    requires Links(level, parent) && 0 <= g < |level|
    ensures 0 <= a < |level|
    decreases level[g]
  {
    if level[g] <= k then g else Anc(level, parent, parent[g].frame, k)
  }

  /** Only the root lies at level 0. */
  lemma RootLevel(level: seq<nat>, parent: seq<Link>, g: int)
    requires Links(level, parent) && 0 <= g < |level|
    ensures level[g] == 0 <==> g == 0
  {
    if g != 0 {
      assert level[parent[g].frame] + 1 == level[g];
    }
  }

  /** One level above the ancestor at level d + 1 is the ancestor at level d. */
  lemma {:induction false} AncStep(level: seq<nat>, parent: seq<Link>, g: int, d: nat)
    requires Links(level, parent) && 0 <= g < |level| && level[g] > d
    ensures var a := Anc(level, parent, g, d + 1);
            1 <= a && level[a] == d + 1 && Anc(level, parent, g, d) == parent[a].frame
    decreases level[g]
  {
    assert g != 0;
    var p := parent[g].frame;
    if level[g] > d + 1 {
      AncStep(level, parent, p, d);
    }
  }

  /** Every used frame descends from the root. */
  lemma AncRoot(level: seq<nat>, parent: seq<Link>, g: int)
    requires Links(level, parent) && 0 <= g < |level|
    ensures Anc(level, parent, g, 0) == 0
  {
    if level[g] == 0 {
      RootLevel(level, parent, g);
    } else {
      AncStep(level, parent, g, 0);
      var a := Anc(level, parent, g, 1);
      RootLevel(level, parent, parent[a].frame);
    }
  }

  /** A visited node agrees with the bookkeeping: its frame is used, at
      the node's depth, and reached through the parent entry it notes. */
  ghost predicate Placed(level: seq<nat>, parent: seq<Link>, x: Node) {
    && 0 <= x.frame < |level| && x.frame < |parent| && level[x.frame] == x.depth
    && (x.frame != 0 ==> parent[x.frame] == Link(x.parent, x.offset))
  }

  /** No frame is visited twice. */
  ghost predicate DistinctFrames(ns: seq<Node>) {
    forall a, b :: 0 <= a < b < |ns| ==> ns[a].frame != ns[b].frame
  }

  ghost function FrameSet(ns: seq<Node>): set<int> {
    set x | x in ns :: x.frame
  }

  /** Frame g lies below entry `offset < n` of table f, one level under it. */
  ghost predicate Under(level: seq<nat>, parent: seq<Link>, g: int, d: nat, f: int, n: int)
    requires Links(level, parent)
  {
    && 0 <= g < |level| && level[g] > d
    && parent[Anc(level, parent, g, d + 1)].frame == f
    && parent[Anc(level, parent, g, d + 1)].offset < n
  }

  lemma DistinctAppend(a: seq<Node>, b: seq<Node>)
    requires DistinctFrames(a) && DistinctFrames(b)
    requires forall x, y :: x in a && y in b ==> x.frame != y.frame
    ensures DistinctFrames(a + b)
  {
    var ab := a + b;
    forall i, j | 0 <= i < j < |ab| ensures ab[i].frame != ab[j].frame {
      if i < |a| && j >= |a| {
        assert ab[i] in a && ab[j] == b[j - |a|];
      } else if i >= |a| {
        assert ab[i] == b[i - |a|] && ab[j] == b[j - |a|];
      }
    }
  }

  /** The search below a used table at its own level visits used frames
      only, each once and as the bookkeeping has it, all descending from
      that table. */
  lemma {:induction false} NodesSound(c: Config, m: seq<int>, level: seq<nat>, parent: seq<Link>,
                                      f: int, d: nat, page: int, par: int, off: int)
    requires Shape(c, m, level, parent) && 0 <= f < |level| && level[f] == d
    requires f == 0 || parent[f] == Link(par, off)
    ensures d <= c.tablesDepth
    ensures BranchSound(level, parent, Nodes(c, m, f, d, page, par, off), f, d)
    decreases c.tablesDepth - level[f], c.PageSize() + 1
  {
    assert level[f] <= c.tablesDepth;
    var ns := Nodes(c, m, f, d, page, par, off);
    var root := Node(f, d, page, par, off);
    if d < c.tablesDepth {
      var kids := Children(c, m, f, d, page, c.PageSize());
      ChildrenSound(c, m, level, parent, f, d, page, c.PageSize());
      assert ns == [root] + kids;
      forall x | x in kids ensures Anc(level, parent, x.frame, d) == f && x.frame != f {
        AncStep(level, parent, x.frame, d);
      }
      DistinctAppend([root], kids);
      forall x | x in ns
        ensures Placed(level, parent, x) && x.depth >= d && Anc(level, parent, x.frame, d) == f
      {
        if x != root {
          assert x in kids;
        }
      }
    } else {
      assert ns == [root];
    }
  }

  lemma {:induction false} ChildrenSound(c: Config, m: seq<int>, level: seq<nat>, parent: seq<Link>,
                                         f: int, d: nat, page: int, n: nat)
    requires Shape(c, m, level, parent) && 0 <= f < |level| && level[f] == d < c.tablesDepth
    requires n <= c.PageSize()
    ensures BelowSound(c, m, level, parent, f, d, page, n)
    decreases c.tablesDepth - level[f], n
  {
    if n > 0 {
      ChildrenSound(c, m, level, parent, f, d, page, n - 1);
      var e := Entry(c, m, f, n - 1);
      if e != 0 {
        assert ChildOk(c, m, level, parent, f, n - 1);
        assert 0 < e < |level| && parent[e] == Link(f, n - 1);
        assert level[e] == d + 1 by { assert level[parent[e].frame] + 1 == level[e]; }
        NodesSound(c, m, level, parent, e, d + 1, page * c.PageSize() + (n - 1), f, n - 1);
        JoinSound(c, m, level, parent, f, d, page, n);
      } else {
        assert Links(level, parent);
        assert d < c.tablesDepth && n > 0 && Entry(c, m, f, n - 1) == 0;
        assert BelowSound(c, m, level, parent, f, d, page, n - 1);
        SkipSound(c, m, level, parent, f, d, page, n);
      }
    }
  }

  /** The nodes ns, visited from used frame f at level d, are used frames,
      each once, as the bookkeeping has them, all descending from f. */
  ghost predicate BranchSound(level: seq<nat>, parent: seq<Link>, ns: seq<Node>, f: int, d: nat)
    requires Links(level, parent)
  {
    && DistinctFrames(ns)
    && forall x :: x in ns ==>
         Placed(level, parent, x) && x.depth >= d && Anc(level, parent, x.frame, d) == f
  }

  /** What the search below entries 0 .. n-1 of table f (at level d) visits:
      used frames, each once, as the bookkeeping has them, all below those
      entries. */
  ghost predicate BelowSound(c: Config, m: seq<int>, level: seq<nat>, parent: seq<Link>,
                             f: int, d: nat, page: int, n: nat)
    requires Links(level, parent) && d < c.tablesDepth
  {
    var ns := Children(c, m, f, d, page, n);
    && DistinctFrames(ns)
    && forall x :: x in ns ==> Placed(level, parent, x) && x.depth > d && Under(level, parent, x.frame, d, f, n)
  }

  /** A non-zero entry n-1 adds the nodes below its frame, which lie below
      no earlier entry. */
  lemma JoinSound(c: Config, m: seq<int>, level: seq<nat>, parent: seq<Link>, f: int, d: nat, page: int, n: nat)
    requires Links(level, parent) && d < c.tablesDepth && n > 0
    requires var e := Entry(c, m, f, n - 1);
             0 < e < |level| && parent[e] == Link(f, n - 1) && level[e] == d + 1
    requires BelowSound(c, m, level, parent, f, d, page, n - 1)
    requires var e := Entry(c, m, f, n - 1);
             BranchSound(level, parent, Nodes(c, m, e, d + 1, page * c.PageSize() + (n - 1), f, n - 1), e, d + 1)
    ensures BelowSound(c, m, level, parent, f, d, page, n)
  {
    var e := Entry(c, m, f, n - 1);
    var prev := Children(c, m, f, d, page, n - 1);
    var sub := Nodes(c, m, e, d + 1, page * c.PageSize() + (n - 1), f, n - 1);
    assert Children(c, m, f, d, page, n) == prev + sub;
    forall x, y | x in prev && y in sub ensures x.frame != y.frame {
      assert parent[Anc(level, parent, x.frame, d + 1)].offset < n - 1;
      assert Anc(level, parent, y.frame, d + 1) == e;
    }
    DistinctAppend(prev, sub);
    forall x | x in prev + sub
      ensures Placed(level, parent, x) && x.depth > d && Under(level, parent, x.frame, d, f, n)
    {
      if x in sub {
        assert Anc(level, parent, x.frame, d + 1) == e;
      } else {
        assert x in prev;
      }
    }
  }

  /** A zero entry n-1 adds nothing. */
  lemma SkipSound(c: Config, m: seq<int>, level: seq<nat>, parent: seq<Link>, f: int, d: nat, page: int, n: nat)
    requires Links(level, parent) && d < c.tablesDepth && n > 0 && Entry(c, m, f, n - 1) == 0
    requires BelowSound(c, m, level, parent, f, d, page, n - 1)
    ensures BelowSound(c, m, level, parent, f, d, page, n)
  {
    var ns := Children(c, m, f, d, page, n);
    assert ns == Children(c, m, f, d, page, n - 1);
    forall x | x in ns
      ensures Placed(level, parent, x) && x.depth > d && Under(level, parent, x.frame, d, f, n)
    {
      assert Under(level, parent, x.frame, d, f, n - 1);
    }
  }

  /** The search below table f reaches every node below entry o < n. */
  lemma {:induction false} ChildrenContain(c: Config, m: seq<int>, f: int, d: nat, page: int, n: nat, o: int)
    requires d < c.tablesDepth && 0 <= o < n && Entry(c, m, f, o) != 0
    ensures forall x :: x in Nodes(c, m, Entry(c, m, f, o), d + 1, page * c.PageSize() + o, f, o) ==>
              x in Children(c, m, f, d, page, n)
  {
    var e := Entry(c, m, f, n - 1);
    var prev := Children(c, m, f, d, page, n - 1);
    var last := if e != 0 then Nodes(c, m, e, d + 1, page * c.PageSize() + (n - 1), f, n - 1) else [];
    assert Children(c, m, f, d, page, n) == prev + last;
    if o < n - 1 {
      ChildrenContain(c, m, f, d, page, n - 1, o);
      forall x | x in Nodes(c, m, Entry(c, m, f, o), d + 1, page * c.PageSize() + o, f, o)
        ensures x in prev + last
      {
        assert x in prev;
      }
    } else {
      assert last == Nodes(c, m, Entry(c, m, f, o), d + 1, page * c.PageSize() + o, f, o);
    }
  }

  /** The parent entry through which the walk of va reaches level k: none
      at the root, else the entry of level k-1. */
  ghost function WalkParent(c: Config, m: seq<int>, va: nat, k: nat): int
    requires k <= c.tablesDepth
  {
    if k == 0 then 0 else Walk(c, m, va, k - 1)
  }

  ghost function WalkOffset(c: Config, va: nat, k: nat): int
    requires k <= c.tablesDepth
  {
    if k == 0 then 0 else CalculateOffset(c, va, k - 1)
  }

  /** The search from the root goes down every present path: what it visits
      below the frame the walk of va reaches at level k, with the page index
      built from the first k table indices of va, it visits from the root. */
  lemma {:induction false} WalkVisited(c: Config, m: seq<int>, va: nat, k: nat)
    requires k <= c.tablesDepth && MappedTo(c, m, va, k)
    ensures Within(Nodes(c, m, Walk(c, m, va, k), k, PagePrefix(c, va, k), WalkParent(c, m, va, k), WalkOffset(c, va, k)),
                   Nodes(c, m, 0, 0, 0, 0, 0))
  {
    if k > 0 {
      assert MappedTo(c, m, va, k - 1) && Walk(c, m, va, k) != 0;
      WalkVisited(c, m, va, k - 1);
      DescendWithin(c, m, Walk(c, m, va, k - 1), k - 1, PagePrefix(c, va, k - 1),
                    WalkParent(c, m, va, k - 1), WalkOffset(c, va, k - 1), CalculateOffset(c, va, k - 1),
                    Nodes(c, m, 0, 0, 0, 0, 0),
                    Walk(c, m, va, k), k, PagePrefix(c, va, k), WalkParent(c, m, va, k), WalkOffset(c, va, k));
    }
  }

  /** What the search visits below a non-zero entry o of a table lies
      within what it visits from that table. */
  lemma DescendWithin(c: Config, m: seq<int>, f: int, d: nat, page: int, par: int, off: int, o: int, root: seq<Node>,
                      e: int, d': nat, page': int, par': int, off': int)
    requires d < c.tablesDepth && 0 <= o < c.PageSize() && e == Entry(c, m, f, o) != 0
    requires d' == d + 1 && page' == page * c.PageSize() + o && par' == f && off' == o
    requires Within(Nodes(c, m, f, d, page, par, off), root)
    ensures Within(Nodes(c, m, e, d', page', par', off'), root)
  {
    var sub := Nodes(c, m, e, d', page', par', off');
    var kids := Children(c, m, f, d, page, c.PageSize());
    ChildrenContain(c, m, f, d, page, c.PageSize(), o);
    assert Within(sub, kids);
    KidsWithin(c, m, f, d, page, par, off);
    WithinTrans(sub, kids, Nodes(c, m, f, d, page, par, off));
    WithinTrans(sub, Nodes(c, m, f, d, page, par, off), root);
  }

  lemma KidsWithin(c: Config, m: seq<int>, f: int, d: nat, page: int, par: int, off: int)
    requires d < c.tablesDepth
    ensures Within(Children(c, m, f, d, page, c.PageSize()), Nodes(c, m, f, d, page, par, off))
  {
    var ns := Nodes(c, m, f, d, page, par, off);
    assert ns == [ns[0]] + Children(c, m, f, d, page, c.PageSize());
  }

  lemma WithinTrans(a: seq<Node>, b: seq<Node>, d: seq<Node>)
    requires Within(a, b) && Within(b, d)
    ensures Within(a, d)
  {
  }

  /** Every node of a is a node of b. */
  ghost predicate Within(a: seq<Node>, b: seq<Node>) {
    forall x :: x in a ==> x in b
  }

  /** The page a mapped address reaches is weighed by the search under the
      page number `virtualAddress >> OFFSET_WIDTH`, the index the search
      builds as `(pageIndex << OFFSET_WIDTH) + i` level by level. */
  lemma PageVisited(c: Config, m: seq<int>, va: nat)
    requires c.Valid() && va < c.VirtualMemorySize() && MappedTo(c, m, va, c.tablesDepth)
    ensures Node(Walk(c, m, va, c.tablesDepth), c.tablesDepth, va / c.PageSize(),
                 Walk(c, m, va, c.tablesDepth - 1), CalculateOffset(c, va, c.tablesDepth - 1))
            in Nodes(c, m, 0, 0, 0, 0, 0)
  {
    var d := c.tablesDepth;
    WalkVisited(c, m, va, d);
    PageFromOffsets(c, va);
    assert d == d - 1 + 1;
    var ns := Nodes(c, m, Walk(c, m, va, d), d, PagePrefix(c, va, d), WalkParent(c, m, va, d), WalkOffset(c, va, d));
    assert ns[0] in ns;
  }

  /** Every used frame below table f is visited by the search from f. */
  lemma {:induction false} NodesComplete(c: Config, m: seq<int>, level: seq<nat>, parent: seq<Link>,
                                         f: int, d: nat, page: int, par: int, off: int, g: int)
    requires Shape(c, m, level, parent) && 0 <= f < |level| && level[f] == d
    requires 0 <= g < |level| && level[g] >= d && Anc(level, parent, g, d) == f
    ensures d <= c.tablesDepth
    ensures exists x :: x in Nodes(c, m, f, d, page, par, off) && x.frame == g
    decreases c.tablesDepth - d
  {
    assert level[f] <= c.tablesDepth;
    var ns := Nodes(c, m, f, d, page, par, off);
    if g == f {
      assert ns[0] in ns;
    } else {
      assert level[g] > d;
      AncStep(level, parent, g, d);
      var a := Anc(level, parent, g, d + 1);
      assert Linked(c, m, parent, a);
      assert level[a] <= c.tablesDepth;
      var o := parent[a].offset;
      var sub := Nodes(c, m, a, d + 1, page * c.PageSize() + o, f, o);
      NodesComplete(c, m, level, parent, a, d + 1, page * c.PageSize() + o, f, o, g);
      ChildrenContain(c, m, f, d, page, c.PageSize(), o);
      var x :| x in sub && x.frame == g;
      assert d < c.tablesDepth && ns == [ns[0]] + Children(c, m, f, d, page, c.PageSize());
      assert x in ns;
    }
  }

  lemma {:induction false} DistinctCard(ns: seq<Node>)
    requires DistinctFrames(ns)
    ensures |FrameSet(ns)| == |ns|
  {
    if ns != [] {
      var tail := ns[1..];
      forall a, b | 0 <= a < b < |tail| ensures tail[a].frame != tail[b].frame {
        assert tail[a] == ns[a + 1] && tail[b] == ns[b + 1];
      }
      DistinctCard(tail);
      forall x | x in tail ensures x.frame != ns[0].frame {
        var j :| 0 <= j < |tail| && tail[j] == x;
        assert ns[j + 1] == x;
      }
      assert ns == [ns[0]] + tail;
      assert FrameSet(ns) == FrameSet(tail) + {ns[0].frame};
    }
  }

  /** The frame numbers 0 .. n-1. */
  ghost function Upto(n: nat): (r: set<int>)
    ensures forall g :: g in r <==> 0 <= g < n
    ensures |r| == n
  {
    if n == 0 then {} else Upto(n - 1) + {n - 1}
  }

  /** The search from the root visits every used frame exactly once, so
      the count it ends with is the number of used frames. */
  lemma NodeCount(c: Config, m: seq<int>, level: seq<nat>, parent: seq<Link>)
    requires Shape(c, m, level, parent)
    ensures var ns := Nodes(c, m, 0, 0, 0, 0, 0);
            && |ns| == |level|
            && forall x :: x in ns ==> Placed(level, parent, x)
  {
    var ns := Nodes(c, m, 0, 0, 0, 0, 0);
    NodesSound(c, m, level, parent, 0, 0, 0, 0, 0);
    forall g | 0 <= g < |level| ensures g in FrameSet(ns) {
      AncRoot(level, parent, g);
      NodesComplete(c, m, level, parent, 0, 0, 0, 0, 0, g);
      var x :| x in ns && x.frame == g;
    }
    assert FrameSet(ns) == Upto(|level|);
    DistinctCard(ns);
  }

  /** The search reads RAM words only. */
  lemma {:induction false} ShapeBounded(c: Config, m: seq<int>, level: seq<nat>, parent: seq<Link>, f: int)
    requires Shape(c, m, level, parent) && 0 <= f < |level|
    ensures level[f] <= c.tablesDepth && Bounded(c, m, f, level[f])
    decreases c.tablesDepth - level[f]
  {
    assert level[f] <= c.tablesDepth;
    if level[f] < c.tablesDepth {
      forall i | 0 <= i < c.PageSize()
        ensures 0 <= Entry(c, m, f, i) < c.numFrames
        ensures Entry(c, m, f, i) != 0 ==> Bounded(c, m, Entry(c, m, f, i), level[f] + 1)
      {
        assert ChildOk(c, m, level, parent, f, i);
        var e := Entry(c, m, f, i);
        if e != 0 {
          ShapeBounded(c, m, level, parent, e);
        }
      }
    }
  }

  /** The frames on a present path are used, one per level. */
  lemma {:induction false} WalkPlaced(c: Config, m: seq<int>, level: seq<nat>, parent: seq<Link>, va: nat, k: nat)
    requires Shape(c, m, level, parent) && k <= c.tablesDepth && MappedTo(c, m, va, k)
    ensures forall j :: 0 <= j <= k ==> 0 <= Walk(c, m, va, j) < |level| && level[Walk(c, m, va, j)] == j
  {
    if k > 0 {
      WalkPlaced(c, m, level, parent, va, k - 1);
      var w := Walk(c, m, va, k - 1);
      assert ChildOk(c, m, level, parent, w, CalculateOffset(c, va, k - 1));
      assert Walk(c, m, va, k) != 0;
    }
  }

  /** What the search of `selectFrameForPage` finds, under the invariant:
      its count is the number of used frames; a recorded table is a used,
      empty table off the path, below the entry recorded with it; a
      recorded page is a used page below the entry recorded with it. */
  lemma SearchFacts(c: Config, m: seq<int>, level: seq<nat>, parent: seq<Link>, protected: seq<int>, replacedPage: int)
    requires Shape(c, m, level, parent)
    ensures var s := SearchResult(c, m, protected, replacedPage);
            && s.frameIndex == |level|
            && (s.frameInfo.frame != 0 ==>
                  var f := s.frameInfo.frame;
                  && 1 <= f < |level| && level[f] < c.tablesDepth && EmptyTable(c, m, f) && f !in protected
                  && parent[f] == Link(s.frameInfo.parentFrame, s.frameInfo.offset))
            && (s.maxPageInfo.frame != 0 ==>
                  var g := s.maxPageInfo.frame;
                  && 1 <= g < |level| && level[g] == c.tablesDepth
                  && parent[g] == Link(s.maxPageInfo.parentFrame, s.maxPageInfo.offset))
  {
    var ns := Nodes(c, m, 0, 0, 0, 0, 0);
    var s0 := Search(NoFrame, 0, NoPage);
    NodeCount(c, m, level, parent);
    VisitAllCount(c, m, protected, replacedPage, s0, ns);
    VisitAllEmpty(c, m, protected, replacedPage, s0, ns);
    VisitAllMax(c, m, protected, replacedPage, s0, ns);
    var s := SearchResult(c, m, protected, replacedPage);
    if s.frameInfo.frame != 0 {
      var k :| 0 <= k < |ns| && Candidate(c, m, protected, ns[k])
               && s.frameInfo == FrameInfo(ns[k].frame, ns[k].parent, ns[k].offset);
      assert Placed(level, parent, ns[k]);
    }
    if s.maxPageInfo.frame != 0 {
      var k :| 0 <= k < |ns| && ns[k].depth == c.tablesDepth && s.maxPageInfo == PageInfoOf(c, replacedPage, ns[k]);
      assert Placed(level, parent, ns[k]);
    }
  }

  /** The parent entry of a used frame other than the root lies in a used
      table one level up, and names the frame. */
  lemma ParentEntry(c: Config, m: seq<int>, level: seq<nat>, parent: seq<Link>, g: int)
    requires Shape(c, m, level, parent) && 1 <= g < |level|
    ensures 0 <= parent[g].frame < |level| <= c.numFrames && 0 <= parent[g].offset < c.PageSize()
    ensures level[parent[g].frame] + 1 == level[g]
    ensures Entry(c, m, parent[g].frame, parent[g].offset) == g
  {
    assert Linked(c, m, parent, g);
  }

  /** After VMinitialize: the root table alone, all zero. */
  lemma InitialShape(c: Config, m: seq<int>)
    requires c.Valid() && |m| == c.numFrames * c.PageSize() && EmptyTable(c, m, 0)
    ensures Shape(c, m, [0], [Link(0, 0)])
  {
    forall f, i | 0 <= f < 1 && 0 <= i < c.PageSize() ensures ChildOk(c, m, [0], [Link(0, 0)], f, i) {
      assert Entry(c, m, 0, i) == 0;
    }
  }
}
