/** How the page-table invariant survives the three RAM updates the
    translator makes: linking a frame under a new entry (a fresh frame, or one
    taken away from its old parent), and writing a word of a page. */
module TreeUpdate {
  import opened MemoryLayout
  import opened PhysicalMemory
  import opened PageTree
  import opened TreeShape

  /** Writing one RAM word changes that entry and no other. */
  lemma WriteEntry(c: Config, m: seq<int>, p: int, o: int, v: int, g: int, i: int)
    requires 0 <= o < c.PageSize() && 0 <= Addr(c, p, o) < |m|
    ensures Entry(c, m[Addr(c, p, o) := v], g, i) == if g == p && i == o then v else Entry(c, m, g, i)
  {
    if 0 <= i < c.PageSize() && Addr(c, g, i) == Addr(c, p, o) {
      AddrInjective(c, g, i, p, o);
    }
  }

  /** m2 agrees with m1 on every entry outside frame x. */
  ghost predicate SameOutside(c: Config, m1: seq<int>, m2: seq<int>, x: int) {
    |m2| == |m1| && forall g, i :: g != x ==> Entry(c, m2, g, i) == Entry(c, m1, g, i)
  }

  /** Copying into frame f leaves every other frame as it was. */
  lemma CopyFrameOutside(c: Config, m: seq<int>, f: int, content: seq<int>)
    requires |content| == c.PageSize()
    ensures SameOutside(c, m, CopyFrame(c, m, f, content), f)
  {
    forall g, i | g != f ensures Entry(c, CopyFrame(c, m, f, content), g, i) == Entry(c, m, g, i) {
      if 0 <= i < c.PageSize() {
        CopyFrameEntry(c, m, f, content, g, i);
      }
    }
  }

  /** A zeroed frame of RAM is an empty table. */
  lemma ZeroFrameEmpty(c: Config, m: seq<int>, f: int)
    requires 0 <= f < c.numFrames && |m| == c.numFrames * c.PageSize()
    ensures EmptyTable(c, ZeroFrame(c, m, f), f)
  {
    forall i | 0 <= i < c.PageSize() ensures Entry(c, ZeroFrame(c, m, f), f, i) == 0 {
      AddrBounds(c, f, i);
      CopyFrameEntry(c, m, f, seq(c.PageSize(), _ => 0), f, i);
    }
  }

  /** Outside frame x, m2 is m with entry (t, ci) now naming x and entry
      (p, o) cleared. With (p, o) == (t, ci) nothing is cleared. */
  ghost predicate MovedTo(c: Config, m: seq<int>, m2: seq<int>, x: int, p: int, o: int, t: int, ci: int) {
    && |m2| == |m|
    && forall g, i :: g != x ==>
         Entry(c, m2, g, i) == (if g == t && i == ci then x else if g == p && i == o then 0 else Entry(c, m, g, i))
  }

  /** The two writes of the unlink-and-link step give `MovedTo`. */
  lemma MoveWords(c: Config, m: seq<int>, m2: seq<int>, x: int, p: int, o: int, t: int, ci: int)
    requires 0 <= o < c.PageSize() && 0 <= ci < c.PageSize()
    requires 0 <= Addr(c, p, o) < |m| && 0 <= Addr(c, t, ci) < |m|
    requires SameOutside(c, m[Addr(c, p, o) := 0][Addr(c, t, ci) := x], m2, x)
    ensures MovedTo(c, m, m2, x, p, o, t, ci)
  {
    var m1 := m[Addr(c, p, o) := 0];
    forall g, i | g != x
      ensures Entry(c, m2, g, i) == (if g == t && i == ci then x else if g == p && i == o then 0 else Entry(c, m, g, i))
    {
      WriteEntry(c, m, p, o, 0, g, i);
      WriteEntry(c, m1, t, ci, x, g, i);
    }
  }

  /** The single write that links a fresh frame gives `MovedTo`. */
  lemma LinkWords(c: Config, m: seq<int>, m2: seq<int>, x: int, t: int, ci: int)
    requires 0 <= ci < c.PageSize() && 0 <= Addr(c, t, ci) < |m|
    requires SameOutside(c, m[Addr(c, t, ci) := x], m2, x)
    ensures MovedTo(c, m, m2, x, t, ci, t, ci)
  {
    forall g, i | g != x
      ensures Entry(c, m2, g, i) == (if g == t && i == ci then x else Entry(c, m, g, i))
    {
      WriteEntry(c, m, t, ci, x, g, i);
    }
  }

  /** A page, or an empty table, is nobody's parent. */
  lemma Childless(c: Config, m: seq<int>, level: seq<nat>, parent: seq<Link>, x: int)
    requires Shape(c, m, level, parent) && 0 <= x < |level|
    requires level[x] == c.tablesDepth || EmptyTable(c, m, x)
    ensures forall g :: 1 <= g < |level| ==> parent[g].frame != x
  {
    forall g | 1 <= g < |level| ensures parent[g].frame != x {
      assert Linked(c, m, parent, g);
      assert level[parent[g].frame] + 1 == level[g] <= c.tablesDepth;
    }
  }

  /** Hanging a childless used frame x (a page, or an empty table) under
      the free entry (t, ci) and clearing its old parent entry keeps the
      invariant, with x now one level below t. */
  lemma MoveShape(c: Config, m: seq<int>, level: seq<nat>, parent: seq<Link>, x: int, t: int, ci: int, m2: seq<int>)
    requires Shape(c, m, level, parent)
    requires 1 <= x < |level| && (level[x] == c.tablesDepth || EmptyTable(c, m, x))
    requires 0 <= t < |level| && t != x && level[t] < c.tablesDepth
    requires 0 <= ci < c.PageSize() && Entry(c, m, t, ci) == 0
    requires MovedTo(c, m, m2, x, parent[x].frame, parent[x].offset, t, ci)
    requires level[t] + 1 < c.tablesDepth ==> EmptyTable(c, m2, x)
    ensures Shape(c, m2, level[x := level[t] + 1], parent[x := Link(t, ci)])
  {
    var level' := level[x := level[t] + 1];
    var parent' := parent[x := Link(t, ci)];
    Childless(c, m, level, parent, x);
    assert Linked(c, m, parent, x);
    var p, o := parent[x].frame, parent[x].offset;
    assert Links(level', parent') by {
      forall g | 1 <= g < |level'|
        ensures 0 <= parent'[g].frame < |level'| && level'[parent'[g].frame] + 1 == level'[g]
      {
        if g != x {
          assert parent[g].frame != x;
        }
      }
    }
    forall g | 1 <= g < |level'| ensures Linked(c, m2, parent', g) {
      if g == x {
        assert Entry(c, m2, t, ci) == x;
      } else {
        assert Linked(c, m, parent, g);
        assert parent[g].frame != x;
        assert Entry(c, m2, parent[g].frame, parent[g].offset) == Entry(c, m, parent[g].frame, parent[g].offset);
      }
    }
    forall f, i | 0 <= f < |level'| && level'[f] < c.tablesDepth && 0 <= i < c.PageSize()
      ensures ChildOk(c, m2, level', parent', f, i)
    {
      if f == x {
        assert Entry(c, m2, x, i) == 0;
      } else if f == t && i == ci {
        assert Entry(c, m2, f, i) == x;
      } else if f == p && i == o {
        assert Entry(c, m2, f, i) == 0;
      } else {
        assert ChildOk(c, m, level, parent, f, i);
        assert Entry(c, m2, f, i) == Entry(c, m, f, i);
      }
    }
  }

  /** Hanging the fresh frame |level| under the free entry (t, ci) keeps
      the invariant, with one more used frame. */
  lemma AddShape(c: Config, m: seq<int>, level: seq<nat>, parent: seq<Link>, t: int, ci: int, m2: seq<int>)
    requires Shape(c, m, level, parent) && |level| < c.numFrames
    requires 0 <= t < |level| && level[t] < c.tablesDepth
    requires 0 <= ci < c.PageSize() && Entry(c, m, t, ci) == 0
    requires MovedTo(c, m, m2, |level|, t, ci, t, ci)
    requires level[t] + 1 < c.tablesDepth ==> EmptyTable(c, m2, |level|)
    ensures Shape(c, m2, level + [level[t] + 1], parent + [Link(t, ci)])
  {
    var x := |level|;
    var level' := level + [level[t] + 1];
    var parent' := parent + [Link(t, ci)];
    assert Links(level', parent') by {
      forall g | 1 <= g < |level'|
        ensures 0 <= parent'[g].frame < |level'| && level'[parent'[g].frame] + 1 == level'[g]
      {
        if g < x {
          assert parent'[g] == parent[g] && level'[g] == level[g];
          assert level'[parent[g].frame] == level[parent[g].frame];
        }
      }
    }
    forall g | 0 <= g < |level'| ensures level'[g] <= c.tablesDepth {
      if g < x {
        assert level'[g] == level[g];
      }
    }
    forall g | 1 <= g < |level'| ensures Linked(c, m2, parent', g) {
      if g == x {
        assert Entry(c, m2, t, ci) == x;
      } else {
        assert Linked(c, m, parent, g);
        assert parent'[g] == parent[g];
        assert Entry(c, m2, parent[g].frame, parent[g].offset) == Entry(c, m, parent[g].frame, parent[g].offset);
      }
    }
    forall f, i | 0 <= f < |level'| && level'[f] < c.tablesDepth && 0 <= i < c.PageSize()
      ensures ChildOk(c, m2, level', parent', f, i)
    {
      if f == x {
        assert Entry(c, m2, x, i) == 0;
      } else if f == t && i == ci {
        assert Entry(c, m2, f, i) == x;
      } else {
        assert level'[f] == level[f];
        assert ChildOk(c, m, level, parent, f, i);
        assert Entry(c, m2, f, i) == Entry(c, m, f, i);
        var e := Entry(c, m, f, i);
        if e != 0 {
          assert parent'[e] == parent[e];
        }
      }
    }
  }

  /** Changing only the words of a page keeps the invariant. */
  lemma PageWriteShape(c: Config, m: seq<int>, level: seq<nat>, parent: seq<Link>, x: int, m2: seq<int>)
    requires Shape(c, m, level, parent) && 0 <= x < |level| && level[x] == c.tablesDepth
    requires SameOutside(c, m, m2, x)
    ensures Shape(c, m2, level, parent)
  {
    forall g | 1 <= g < |level| ensures Linked(c, m2, parent, g) {
      assert Linked(c, m, parent, g);
      assert level[parent[g].frame] + 1 == level[g] <= c.tablesDepth;
    }
    forall f, i | 0 <= f < |level| && level[f] < c.tablesDepth && 0 <= i < c.PageSize()
      ensures ChildOk(c, m2, level, parent, f, i)
    {
      assert ChildOk(c, m, level, parent, f, i);
    }
  }

  /** A walk that meets the same entries in m2 as in m ends at the same frames. */
  lemma {:induction false} PathKept(c: Config, m: seq<int>, m2: seq<int>, va: nat, k: nat)
    requires k <= c.tablesDepth
    requires forall j :: 0 <= j < k ==>
               Entry(c, m2, Walk(c, m, va, j), CalculateOffset(c, va, j)) == Walk(c, m, va, j + 1)
    ensures forall j :: 0 <= j <= k ==> Walk(c, m2, va, j) == Walk(c, m, va, j)
  {
    if k > 0 {
      PathKept(c, m, m2, va, k - 1);
      assert Walk(c, m2, va, k) == Entry(c, m2, Walk(c, m, va, k - 1), CalculateOffset(c, va, k - 1));
    }
  }

  /** After x is linked under the missing entry at depth d of the walk for
      va (x off that path), the walk keeps its first d frames and goes on to x. */
  lemma MovePath(c: Config, m: seq<int>, m2: seq<int>, va: nat, d: nat, x: int, p: int, o: int)
    requires d < c.tablesDepth && MappedTo(c, m, va, d) && x != 0
    requires Entry(c, m, Walk(c, m, va, d), CalculateOffset(c, va, d)) == 0
    requires forall j :: 0 <= j <= d ==> Walk(c, m, va, j) != x
    requires (p == Walk(c, m, va, d) && o == CalculateOffset(c, va, d)) || Entry(c, m, p, o) == x
    requires MovedTo(c, m, m2, x, p, o, Walk(c, m, va, d), CalculateOffset(c, va, d))
    ensures forall j :: 0 <= j <= d ==> Walk(c, m2, va, j) == Walk(c, m, va, j)
    ensures Walk(c, m2, va, d + 1) == x && MappedTo(c, m2, va, d + 1)
  {
    forall j | 0 <= j < d
      ensures Entry(c, m2, Walk(c, m, va, j), CalculateOffset(c, va, j)) == Walk(c, m, va, j + 1)
    {
      assert Walk(c, m, va, j + 1) != 0 && Walk(c, m, va, j) != x;
    }
    PathKept(c, m, m2, va, d);
    assert Walk(c, m, va, d) != x;
    forall j | 1 <= j <= d + 1 ensures Walk(c, m2, va, j) != 0 {
      if j <= d {
        assert Walk(c, m, va, j) != 0;
      }
    }
  }

  /** Changing only the words of the page a walk ends at keeps that walk. */
  lemma PageWritePath(c: Config, m: seq<int>, level: seq<nat>, parent: seq<Link>, va: nat, m2: seq<int>)
    requires Shape(c, m, level, parent) && MappedTo(c, m, va, c.tablesDepth)
    requires SameOutside(c, m, m2, Walk(c, m, va, c.tablesDepth))
    ensures MappedTo(c, m2, va, c.tablesDepth)
    ensures forall j :: 0 <= j <= c.tablesDepth ==> Walk(c, m2, va, j) == Walk(c, m, va, j)
  {
    var x := Walk(c, m, va, c.tablesDepth);
    WalkPlaced(c, m, level, parent, va, c.tablesDepth);
    forall j | 0 <= j < c.tablesDepth
      ensures Entry(c, m2, Walk(c, m, va, j), CalculateOffset(c, va, j)) == Walk(c, m, va, j + 1)
    {
      assert level[Walk(c, m, va, j)] == j;
    }
    PathKept(c, m, m2, va, c.tablesDepth);
    forall j | 1 <= j <= c.tablesDepth ensures Walk(c, m2, va, j) != 0 {
      assert Walk(c, m, va, j) != 0;
    }
  }

  /** The reuse of frame x (an empty table off the path, or a page) for
      the missing entry at depth d of the walk for va: its old parent entry
      cleared, the missing entry set to it, and only x's own words changed
      otherwise. The invariant holds with x one level below the path's
      table at depth d, and the walk now reaches x. */
  lemma Relink(c: Config, m: seq<int>, level: seq<nat>, parent: seq<Link>, va: nat, d: nat, x: int, m2: seq<int>)
    requires Shape(c, m, level, parent) && d < c.tablesDepth && MappedTo(c, m, va, d)
    requires Entry(c, m, Walk(c, m, va, d), CalculateOffset(c, va, d)) == 0
    requires 1 <= x < |level| && (level[x] == c.tablesDepth || EmptyTable(c, m, x))
    requires forall j :: 0 <= j <= d ==> Walk(c, m, va, j) != x
    requires 0 <= Addr(c, parent[x].frame, parent[x].offset) < |m|
    requires 0 <= Addr(c, Walk(c, m, va, d), CalculateOffset(c, va, d)) < |m|
    requires SameOutside(c, m[Addr(c, parent[x].frame, parent[x].offset) := 0]
                             [Addr(c, Walk(c, m, va, d), CalculateOffset(c, va, d)) := x], m2, x)
    requires d + 1 < c.tablesDepth ==> EmptyTable(c, m2, x)
    ensures Shape(c, m2, level[x := d + 1], parent[x := Link(Walk(c, m, va, d), CalculateOffset(c, va, d))])
    ensures forall j :: 0 <= j <= d ==> Walk(c, m2, va, j) == Walk(c, m, va, j)
    ensures Walk(c, m2, va, d + 1) == x && MappedTo(c, m2, va, d + 1)
  {
    var t, ci := Walk(c, m, va, d), CalculateOffset(c, va, d);
    WalkPlaced(c, m, level, parent, va, d);
    ParentEntry(c, m, level, parent, x);
    var p, o := parent[x].frame, parent[x].offset;
    MoveWords(c, m, m2, x, p, o, t, ci);
    MoveShape(c, m, level, parent, x, t, ci, m2);
    MovePath(c, m, m2, va, d, x, p, o);
  }

  /** The same for the first unused frame x == |level|: the missing entry
      set to it, and only x's own words changed otherwise. */
  lemma Attach(c: Config, m: seq<int>, level: seq<nat>, parent: seq<Link>, va: nat, d: nat, m2: seq<int>)
    requires Shape(c, m, level, parent) && d < c.tablesDepth && MappedTo(c, m, va, d)
    requires |level| < c.numFrames
    requires Entry(c, m, Walk(c, m, va, d), CalculateOffset(c, va, d)) == 0
    requires 0 <= Addr(c, Walk(c, m, va, d), CalculateOffset(c, va, d)) < |m|
    requires SameOutside(c, m[Addr(c, Walk(c, m, va, d), CalculateOffset(c, va, d)) := |level|], m2, |level|)
    requires d + 1 < c.tablesDepth ==> EmptyTable(c, m2, |level|)
    ensures Shape(c, m2, level + [d + 1], parent + [Link(Walk(c, m, va, d), CalculateOffset(c, va, d))])
    ensures forall j :: 0 <= j <= d ==> Walk(c, m2, va, j) == Walk(c, m, va, j)
    ensures Walk(c, m2, va, d + 1) == |level| && MappedTo(c, m2, va, d + 1)
  {
    var t, ci := Walk(c, m, va, d), CalculateOffset(c, va, d);
    var x := |level|;
    WalkPlaced(c, m, level, parent, va, d);
    LinkWords(c, m, m2, x, t, ci);
    AddShape(c, m, level, parent, t, ci, m2);
    MovePath(c, m, m2, va, d, x, t, ci);
  }

  /** A frame the selection may hand out, with RAM after the selection:
      the first unused frame with RAM as it was, or a used frame with
      nothing below it (a page, or an empty table off the path) whose parent
      entry has been cleared. */
  ghost predicate Handout(c: Config, m: seq<int>, level: seq<nat>, parent: seq<Link>, protected: seq<int>,
                          x: int, m1: seq<int>) {
    || (x == |level| < c.numFrames && m1 == m)
    || (&& 1 <= x < |level| && |parent| == |level|
        && (level[x] == c.tablesDepth || (EmptyTable(c, m, x) && x !in protected))
        && 0 <= Addr(c, parent[x].frame, parent[x].offset) < |m|
        && m1 == m[Addr(c, parent[x].frame, parent[x].offset) := 0])
  }

  /** The bookkeeping after frame x is given a level or a parent entry v:
      the entry of a used frame is replaced, the first unused one is added. */
  function Assign<T>(s: seq<T>, x: int, v: T): (r: seq<T>)
    ensures 0 <= x < |s| ==> r == s[x := v]
    ensures !(0 <= x < |s|) ==> r == s + [v]
  {
    if 0 <= x < |s| then s[x := v] else s + [v]
  }

  /** Linking a handed-out frame under the missing entry at depth d of the
      walk for va keeps the invariant, and the walk now reaches that frame. */
  lemma LinkHandout(c: Config, m: seq<int>, level: seq<nat>, parent: seq<Link>, protected: seq<int>,
                    va: nat, d: nat, x: int, m1: seq<int>, m2: seq<int>)
    requires Shape(c, m, level, parent) && d < c.tablesDepth && MappedTo(c, m, va, d)
    requires Entry(c, m, Walk(c, m, va, d), CalculateOffset(c, va, d)) == 0
    requires forall k :: 0 <= k <= d ==> Walk(c, m, va, k) in protected
    requires Handout(c, m, level, parent, protected, x, m1)
    requires 0 <= Addr(c, Walk(c, m, va, d), CalculateOffset(c, va, d)) < |m1|
    requires SameOutside(c, m1[Addr(c, Walk(c, m, va, d), CalculateOffset(c, va, d)) := x], m2, x)
    requires d + 1 < c.tablesDepth ==> EmptyTable(c, m2, x)
    ensures 1 <= x < c.numFrames
    ensures Shape(c, m2, Assign(level, x, d + 1), Assign(parent, x, Link(Walk(c, m, va, d), CalculateOffset(c, va, d))))
    ensures forall j :: 0 <= j <= d ==> Walk(c, m2, va, j) == Walk(c, m, va, j)
    ensures Walk(c, m2, va, d + 1) == x && MappedTo(c, m2, va, d + 1)
  {
    if x == |level| && m1 == m {
      Attach(c, m, level, parent, va, d, m2);
    } else {
      WalkPlaced(c, m, level, parent, va, d);
      forall j | 0 <= j <= d ensures Walk(c, m, va, j) != x {
        assert Walk(c, m, va, j) in protected;
      }
      Relink(c, m, level, parent, va, d, x, m2);
    }
  }

  /** A write into the page that va reaches keeps the invariant and the
      walk, and the word written is the one va now selects. */
  lemma PageWrite(c: Config, m: seq<int>, level: seq<nat>, parent: seq<Link>, va: nat, o: int, v: int, m2: seq<int>)
    requires Shape(c, m, level, parent) && MappedTo(c, m, va, c.tablesDepth) && 0 <= o < c.PageSize()
    requires 0 <= Addr(c, Walk(c, m, va, c.tablesDepth), o) < |m|
    requires m2 == m[Addr(c, Walk(c, m, va, c.tablesDepth), o) := v]
    ensures Shape(c, m2, level, parent) && MappedTo(c, m2, va, c.tablesDepth)
    ensures forall j :: 0 <= j <= c.tablesDepth ==> Walk(c, m2, va, j) == Walk(c, m, va, j)
    ensures Entry(c, m2, Walk(c, m, va, c.tablesDepth), o) == v
  {
    var x := Walk(c, m, va, c.tablesDepth);
    forall g, i ensures Entry(c, m2, g, i) == if g == x && i == o then v else Entry(c, m, g, i) {
      WriteEntry(c, m, x, o, v, g, i);
    }
    WalkPlaced(c, m, level, parent, va, c.tablesDepth);
    PageWriteShape(c, m, level, parent, x, m2);
    PageWritePath(c, m, level, parent, va, m2);
  }

  /** A walk present to depth d, kept to depth d in m2 and extended by one
      present entry, is present to depth d + 1 in m2. */
  lemma MappedStep(c: Config, m: seq<int>, m2: seq<int>, va: nat, d: nat)
    requires d < c.tablesDepth && MappedTo(c, m, va, d)
    requires forall j :: 0 <= j <= d ==> Walk(c, m2, va, j) == Walk(c, m, va, j)
    requires Walk(c, m2, va, d + 1) != 0
    ensures MappedTo(c, m2, va, d + 1)
  {
    forall j | 1 <= j <= d + 1 ensures Walk(c, m2, va, j) != 0 {
      if j <= d {
        assert Walk(c, m, va, j) != 0;
      }
    }
  }

  /** The path tables noted during a walk to depth d: the frame at each
      level up to d, and 0 below it. */
  ghost predicate Noted(c: Config, m: seq<int>, va: nat, d: nat, path: seq<int>) {
    && d <= c.tablesDepth && |path| > c.tablesDepth
    && forall k :: 0 <= k < c.tablesDepth ==> path[k] == if k <= d then Walk(c, m, va, k) else 0
  }

  /** Every table on the walk so far is among the noted path tables. */
  lemma NotedProtects(c: Config, m: seq<int>, va: nat, d: nat, path: seq<int>)
    requires Noted(c, m, va, d, path) && d < c.tablesDepth
    ensures forall k :: 0 <= k <= d ==> Walk(c, m, va, k) in path[..c.tablesDepth]
  {
    forall k | 0 <= k <= d ensures Walk(c, m, va, k) in path[..c.tablesDepth] {
      assert path[..c.tablesDepth][k] == path[k];
    }
  }

  /** Noting the frame reached one level further down, with the walk above
      it kept, extends the noted path. */
  lemma NotedStep(c: Config, m: seq<int>, m2: seq<int>, va: nat, d: nat, path: seq<int>, v: int)
    requires Noted(c, m, va, d, path) && d < c.tablesDepth
    requires forall j :: 0 <= j <= d ==> Walk(c, m2, va, j) == Walk(c, m, va, j)
    requires Walk(c, m2, va, d + 1) == v
    ensures Noted(c, m2, va, d + 1, path[d + 1 := v])
  {
    forall k | 0 <= k < c.tablesDepth
      ensures path[d + 1 := v][k] == if k <= d + 1 then Walk(c, m2, va, k) else 0
    {
      if k <= d {
        assert path[k] == Walk(c, m, va, k);
      }
    }
  }
}
