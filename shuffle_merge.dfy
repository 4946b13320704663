/** The shuffle merge of Ex3/MapReduceFramework.cpp on values: what one
    updatePairs call does to the worker buffers, as a function of the
    buffers before it, the properties of that function, and the invariant
    the whole shuffle keeps. The methods of MapReduceFramework.Job are
    proved against these. */
module ShuffleMerge {
  import opened KeyOrder

  ghost predicate Ascending(h: seq<int>) {
    forall k, l :: 0 <= k < l < |h| ==> h[k] < h[l]
  }

  /** The exact list of the indices of non-empty buffers, ascending: what
      updateIntermediates builds and updatePairs keeps up to date. */
  ghost predicate NonEmptyIndices<K, V>(h: seq<int>, b: seq<seq<Pair<K, V>>>) {
    && Ascending(h)
    && (forall k :: 0 <= k < |h| ==> 0 <= h[k] < |b| && b[h[k]] != [])
    && (forall i :: 0 <= i < |b| && b[i] != [] ==> i in h)
  }

  /** maxKey is the key of some listed buffer's last pair, and no listed
      buffer's last key is greater: what getMaxKey computes. */
  ghost predicate IsMaxKey<K, V>(less: (K, K) -> bool, h: seq<int>, b: seq<seq<Pair<K, V>>>, maxKey: K) {
    && (exists k :: 0 <= k < |h| && 0 <= h[k] < |b| && b[h[k]] != [] && maxKey == Last(b[h[k]]).key)
    && (forall k :: 0 <= k < |h| && 0 <= h[k] < |b| && b[h[k]] != [] ==> !less(maxKey, Last(b[h[k]]).key))
  }

  lemma AscendingPrefix(h: seq<int>, n: nat)
    requires Ascending(h) && n < |h|
    ensures Ascending(h[..n]) && h[n] !in h[..n]
  {
    assert forall k :: 0 <= k < n ==> h[..n][k] == h[k];
  }

  lemma InPrefix(h: seq<int>, n: nat)
    requires n <= |h|
    ensures forall x :: x in h[..n] ==> x in h
  {
    forall x | x in h[..n] ensures x in h {
      var k :| 0 <= k < n && h[..n][k] == x;
      assert h[k] == x;
    }
  }

  /** `std::find` followed by `erase`: drops the first occurrence of x. */
  function EraseFirst(s: seq<int>, x: int): (r: seq<int>)
    ensures forall y :: y in r ==> y in s
  {
    if s == [] then []
    else if s[0] == x then s[1..]
    else [s[0]] + EraseFirst(s[1..], x)
  }

  /** On a list without repetitions, erasing x removes exactly x and keeps the order. */
  lemma {:induction false} EraseFirstAscending(s: seq<int>, x: int)
    requires Ascending(s)
    ensures Ascending(EraseFirst(s, x))
    ensures forall y :: y in EraseFirst(s, x) <==> y in s && y != x
  {
    if s != [] && s[0] != x {
      assert Ascending(s[1..]);
      EraseFirstAscending(s[1..], x);
      var r := EraseFirst(s, x);
      forall k, l | 0 <= k < l < |r| ensures r[k] < r[l] {
        if k == 0 {
          assert r[l] in EraseFirst(s[1..], x);
          assert r[l] in s[1..];
        }
      }
      assert s[0] !in s[1..];
    } else if s != [] {
      assert s[0] !in s[1..];
    }
  }

  // ---- The tail loop of updatePairs on one buffer (lines 225-233) ----

  /** How many pairs the tail loop leaves in a buffer: it pops while the
      last key is not less than maxKey, and stops when the buffer runs empty. */
  function Kept<K, V>(less: (K, K) -> bool, s: seq<Pair<K, V>>, maxKey: K): (n: nat)
    ensures n <= |s|
  {
    if s == [] || less(Last(s).key, maxKey) then |s| else Kept(less, s[..|s| - 1], maxKey)
  }

  /** Cutting s at n leaves a prefix that is empty or ends in a key less
      than maxKey, and a suffix with no key less than maxKey. */
  ghost predicate TailSplit<K, V>(less: (K, K) -> bool, s: seq<Pair<K, V>>, n: nat, maxKey: K) {
    && n <= |s|
    && (n == 0 || less(s[n - 1].key, maxKey))
    && (forall e :: e in s[n..] ==> !less(e.key, maxKey))
  }

  /** The tail loop stops at a split ... */
  lemma {:induction false} KeptSplit<K, V>(less: (K, K) -> bool, s: seq<Pair<K, V>>, maxKey: K)
    ensures TailSplit(less, s, Kept(less, s, maxKey), maxKey)
  {
    if s != [] && !less(Last(s).key, maxKey) {
      var t := s[..|s| - 1];
      KeptSplit(less, t, maxKey);
      var n := Kept(less, t, maxKey);
      assert s[..|s| - 1][n..] + [Last(s)] == s[n..];
      forall e | e in s[n..] ensures !less(e.key, maxKey) {
        if e != Last(s) {
          assert e in t[n..];
        }
      }
      if n > 0 {
        assert t[n - 1] == s[n - 1];
      }
    }
  }

  /** ... and at the only one. */
  lemma {:induction false} KeptUnique<K, V>(less: (K, K) -> bool, s: seq<Pair<K, V>>, n: nat, maxKey: K)
    requires TailSplit(less, s, n, maxKey)
    ensures n == Kept(less, s, maxKey)
  {
    if n < |s| {
      var t := s[..|s| - 1];
      assert Last(s) in s[n..];
      assert forall e :: e in t[n..] ==> e in s[n..];
      if n > 0 {
        assert t[n - 1] == s[n - 1];
      }
      KeptUnique(less, t, n, maxKey);
    }
  }

  // ---- The first loop of updatePairs (lines 224-234) ----

  /** The buffers after the loop, the group it built and the indices it
      recorded as emptied. */
  datatype Sweep<K, V> = Sweep(buffers: seq<seq<Pair<K, V>>>, group: seq<Pair<K, V>>, emptied: seq<int>)

  /** The loop over the list h, one buffer after another: each buffer
      keeps what the tail loop leaves, the popped pairs join the group in
      the order popped, and a buffer popped to empty is recorded. */
  function SweepTails<K, V>(less: (K, K) -> bool, maxKey: K, h: seq<int>, b: seq<seq<Pair<K, V>>>): (s: Sweep<K, V>)
    requires forall k :: 0 <= k < |h| ==> 0 <= h[k] < |b|
    ensures |s.buffers| == |b|
  {
    if h == [] then Sweep(b, [], [])
    else
      var s := SweepTails(less, maxKey, h[..|h| - 1], b);
      var i := Last(h);
      var n := Kept(less, s.buffers[i], maxKey);
      Sweep(s.buffers[i := s.buffers[i][..n]], s.group + Reverse(s.buffers[i][n..]),
            if n == 0 then s.emptied + [i] else s.emptied)
  }

  /** Cutting buffer i at m and appending its reversed tail to a group
      keeps group and buffers together the same pool. */
  lemma CutPool<K, V>(bs: seq<seq<Pair<K, V>>>, i: nat, m: nat, g: seq<Pair<K, V>>)
    requires i < |bs| && m <= |bs[i]|
    ensures multiset(g + Reverse(bs[i][m..])) + AllPairs(bs[i := bs[i][..m]]) == multiset(g) + AllPairs(bs)
    ensures |g + Reverse(bs[i][m..])| + TotalSize(bs[i := bs[i][..m]]) == |g| + TotalSize(bs)
  {
    var x, t := bs[i][..m], bs[i][m..];
    AllPairsUpdate(bs, i, x);
    ReverseMultiset(t);
    assert bs[i] == x + t;
    var u := AllPairs(bs[i := x]);
    assert (u + multiset(t)) + multiset(x) == AllPairs(bs) + multiset(x);
    MultisetCancel(u + multiset(t), AllPairs(bs), multiset(x));
  }

  lemma MultisetCancel<T>(a: multiset<T>, b: multiset<T>, c: multiset<T>)
    requires a + c == b + c
    ensures a == b
  {
    forall o ensures a[o] == b[o] {
      assert (a + c)[o] == (b + c)[o];
    }
  }

  /** The loop only moves pairs: none is lost, none is duplicated. */
  lemma {:induction false} SweepPool<K, V>(less: (K, K) -> bool, maxKey: K, h: seq<int>, b: seq<seq<Pair<K, V>>>)
    requires forall k :: 0 <= k < |h| ==> 0 <= h[k] < |b|
    ensures multiset(SweepTails(less, maxKey, h, b).group) + AllPairs(SweepTails(less, maxKey, h, b).buffers) == AllPairs(b)
    ensures |SweepTails(less, maxKey, h, b).group| + TotalSize(SweepTails(less, maxKey, h, b).buffers) == TotalSize(b)
  {
    if h != [] {
      var n := |h| - 1;
      SweepPool(less, maxKey, h[..n], b);
      var r := SweepTails(less, maxKey, h[..n], b);
      CutPool(r.buffers, h[n], Kept(less, r.buffers[h[n]], maxKey), r.group);
    }
  }

  /** Buffers not on the list are untouched. */
  lemma {:induction false} SweepFrame<K, V>(less: (K, K) -> bool, maxKey: K, h: seq<int>, b: seq<seq<Pair<K, V>>>, j: int)
    requires forall k :: 0 <= k < |h| ==> 0 <= h[k] < |b|
    requires 0 <= j < |b| && j !in h
    ensures SweepTails(less, maxKey, h, b).buffers[j] == b[j]
  {
    if h != [] {
      var n := |h| - 1;
      InPrefix(h, n);
      SweepFrame(less, maxKey, h[..n], b, j);
    }
  }

  /** On a list without repetitions each listed buffer is cut exactly
      where the tail loop stops on its original contents. */
  lemma {:induction false} SweepAt<K, V>(less: (K, K) -> bool, maxKey: K, h: seq<int>, b: seq<seq<Pair<K, V>>>, k: nat)
    requires forall k :: 0 <= k < |h| ==> 0 <= h[k] < |b|
    requires Ascending(h) && k < |h|
    ensures SweepTails(less, maxKey, h, b).buffers[h[k]] == b[h[k]][..Kept(less, b[h[k]], maxKey)]
  {
    var n := |h| - 1;
    AscendingPrefix(h, n);
    if k == n {
      SweepFrame(less, maxKey, h[..n], b, h[n]);
    } else {
      SweepAt(less, maxKey, h[..n], b, k);
      assert h[..n][k] == h[k];
    }
  }

  /** An index is recorded as emptied exactly when it is listed and its
      buffer ends up empty. */
  lemma {:induction false} SweepEmptied<K, V>(less: (K, K) -> bool, maxKey: K, h: seq<int>, b: seq<seq<Pair<K, V>>>, x: int)
    requires forall k :: 0 <= k < |h| ==> 0 <= h[k] < |b|
    requires Ascending(h)
    ensures x in SweepTails(less, maxKey, h, b).emptied <==>
            x in h && 0 <= x < |b| && SweepTails(less, maxKey, h, b).buffers[x] == []
  {
    if h != [] {
      var n := |h| - 1;
      AscendingPrefix(h, n);
      SweepEmptied(less, maxKey, h[..n], b, x);
      assert h == h[..n] + [h[n]];
      InPrefix(h, n);
    }
  }

  /** Every listed buffer whose last key is not less than maxKey gives up
      at least that pair, so the group is not empty. */
  lemma {:induction false} SweepGroupNonEmpty<K, V>(less: (K, K) -> bool, maxKey: K, h: seq<int>, b: seq<seq<Pair<K, V>>>, k: nat)
    requires forall k :: 0 <= k < |h| ==> 0 <= h[k] < |b|
    requires Ascending(h) && k < |h| && b[h[k]] != [] && !less(Last(b[h[k]]).key, maxKey)
    ensures SweepTails(less, maxKey, h, b).group != []
  {
    var n := |h| - 1;
    AscendingPrefix(h, n);
    if k == n {
      SweepFrame(less, maxKey, h[..n], b, h[n]);
    } else {
      assert h[..n][k] == h[k];
      SweepGroupNonEmpty(less, maxKey, h[..n], b, k);
    }
  }

  /** Keys sandwiched between maxKey and a key not above it equal maxKey. */
  lemma Sandwich<K(!new)>(less: (K, K) -> bool, x: K, last: K, maxKey: K)
    requires StrictTotalOrder(less)
    requires !less(x, maxKey) && !less(last, x) && !less(maxKey, last)
    ensures x == maxKey
  {
    OrderLawsAll(less);
    if x != last {
      assert less(x, last);
    }
  }

  /** When every listed buffer is sorted and its last key is at most
      maxKey, every pair the loop moves has key maxKey. */
  lemma {:induction false} SweepGroupKeys<K(!new), V>(less: (K, K) -> bool, maxKey: K, h: seq<int>, b: seq<seq<Pair<K, V>>>)
    requires forall k :: 0 <= k < |h| ==> 0 <= h[k] < |b|
    requires Ascending(h) && StrictTotalOrder(less)
    requires forall k :: 0 <= k < |h| ==> Sorted(less, b[h[k]]) && b[h[k]] != [] && !less(maxKey, Last(b[h[k]]).key)
    ensures forall e :: e in SweepTails(less, maxKey, h, b).group ==> e.key == maxKey
  {
    if h != [] {
      var n := |h| - 1;
      var i := h[n];
      AscendingPrefix(h, n);
      assert forall k :: 0 <= k < n ==> h[..n][k] == h[k];
      SweepGroupKeys(less, maxKey, h[..n], b);
      SweepFrame(less, maxKey, h[..n], b, i);
      var m := Kept(less, b[i], maxKey);
      KeptSplit(less, b[i], maxKey);
      forall e | e in Reverse(b[i][m..]) ensures e.key == maxKey {
        ReverseHas(b[i][m..], e);
        assert e in b[i];
        SortedBelowLast(less, b[i], e);
        Sandwich(less, e.key, Last(b[i]).key, maxKey);
      }
    }
  }

  /** A buffer the loop leaves behind is sorted and holds only keys less
      than maxKey, given that the list names every non-empty buffer. */
  lemma SweepRemaining<K(!new), V>(less: (K, K) -> bool, maxKey: K, h: seq<int>, b: seq<seq<Pair<K, V>>>, j: int)
    requires NonEmptyIndices(h, b) && StrictTotalOrder(less)
    requires 0 <= j < |b| && Sorted(less, b[j])
    ensures Sorted(less, SweepTails(less, maxKey, h, b).buffers[j])
    ensures forall e :: e in SweepTails(less, maxKey, h, b).buffers[j] ==> less(e.key, maxKey)
  {
    OrderLawsAll(less);
    var c := SweepTails(less, maxKey, h, b).buffers[j];
    if j in h {
      var k :| 0 <= k < |h| && h[k] == j;
      SweepAt(less, maxKey, h, b, k);
      var m := Kept(less, b[j], maxKey);
      KeptSplit(less, b[j], maxKey);
      SortedPrefix(less, b[j], m);
      forall e | e in c ensures less(e.key, maxKey) {
        SortedBelowLast(less, c, e);
        assert Last(c) == b[j][m - 1];
      }
    } else {
      SweepFrame(less, maxKey, h, b, j);
    }
  }

  /** After the erase loop the list names exactly the non-empty buffers again. */
  lemma RemovedIndices<K, V>(less: (K, K) -> bool, maxKey: K, h: seq<int>, b: seq<seq<Pair<K, V>>>, h': seq<int>)
    requires NonEmptyIndices(h, b)
    requires Ascending(h') && forall x :: x in h' <==> x in h && x !in SweepTails(less, maxKey, h, b).emptied
    ensures NonEmptyIndices(h', SweepTails(less, maxKey, h, b).buffers)
  {
    var c := SweepTails(less, maxKey, h, b).buffers;
    forall l | 0 <= l < |h'| ensures 0 <= h'[l] < |c| && c[h'[l]] != [] {
      var x := h'[l];
      assert x in h';
      SweepEmptied(less, maxKey, h, b, x);
    }
    forall x | 0 <= x < |c| && c[x] != [] ensures x in h' {
      SweepEmptied(less, maxKey, h, b, x);
      if x !in h {
        SweepFrame(less, maxKey, h, b, x);
      }
    }
  }

  /** Prefixes of sorted buffers are sorted. */
  lemma SortedPrefix<K, V>(less: (K, K) -> bool, s: seq<Pair<K, V>>, n: nat)
    requires Sorted(less, s) && n <= |s|
    ensures Sorted(less, s[..n])
  {
    assert forall i, j :: 0 <= i < j < n ==> s[..n][i] == s[i] && s[..n][j] == s[j];
  }

  /** In a sorted buffer no pair's key exceeds the last one's. */
  lemma SortedBelowLast<K(!new), V>(less: (K, K) -> bool, s: seq<Pair<K, V>>, e: Pair<K, V>)
    requires StrictTotalOrder(less) && Sorted(less, s) && e in s
    ensures !less(Last(s).key, e.key)
  {
    OrderLawsAll(less);
    var j :| 0 <= j < |s| && s[j] == e;
    if j < |s| - 1 {
      assert !ComparePairs(less, s[|s| - 1], s[j]);
    }
  }

  lemma ReverseHas<T>(s: seq<T>, e: T)
    ensures e in Reverse(s) <==> e in s
  {
    ReverseMultiset(s);
    assert e in Reverse(s) <==> e in multiset(Reverse(s));
  }

  // ---- The shuffle loop (lines 244-256) ----

  /** What holds between rounds of shuffle, from the buffers b0 it started
      with: h lists the non-empty buffers, all still sorted; the groups so
      far have strictly descending keys, every pair still buffered has a
      key below the last group's, and no pair was lost or duplicated. */
  ghost predicate ShuffleInv<K, V>(less: (K, K) -> bool, b0: seq<seq<Pair<K, V>>>, b: seq<seq<Pair<K, V>>>,
                                   gs: seq<seq<Pair<K, V>>>, h: seq<int>) {
    && NonEmptyIndices(h, b)
    && (forall i :: 0 <= i < |b| ==> Sorted(less, b[i]))
    && DescendingGroups(less, gs)
    && (gs != [] ==> forall i, e :: 0 <= i < |b| && e in b[i] ==> less(e.key, Last(gs)[0].key))
    && multiset(Flatten(gs)) + AllPairs(b) == AllPairs(b0)
    && |Flatten(gs)| + TotalSize(b) == TotalSize(b0)
  }

  lemma ShuffleInit<K, V>(less: (K, K) -> bool, b0: seq<seq<Pair<K, V>>>, h: seq<int>)
    requires NonEmptyIndices(h, b0) && forall i :: 0 <= i < |b0| ==> Sorted(less, b0[i])
    ensures ShuffleInv(less, b0, b0, [], h)
  {
  }

  /** One round of shuffle about values: after getMaxKey, the group
      updatePairs builds is a non-empty group with key maxKey, and every
      pair it leaves behind is in a sorted buffer and has a smaller key. */
  lemma RoundGroup<K(!new), V>(less: (K, K) -> bool, h: seq<int>, b: seq<seq<Pair<K, V>>>, maxKey: K)
    requires StrictTotalOrder(less) && NonEmptyIndices(h, b)
    requires forall i :: 0 <= i < |b| ==> Sorted(less, b[i])
    requires IsMaxKey(less, h, b, maxKey)
    ensures IsGroup(SweepTails(less, maxKey, h, b).group)
    ensures SweepTails(less, maxKey, h, b).group[0].key == maxKey
    ensures forall i :: 0 <= i < |b| ==> Sorted(less, SweepTails(less, maxKey, h, b).buffers[i])
    ensures forall i, e :: 0 <= i < |b| && e in SweepTails(less, maxKey, h, b).buffers[i] ==> less(e.key, maxKey)
  {
    var s := SweepTails(less, maxKey, h, b);
    var k :| 0 <= k < |h| && 0 <= h[k] < |b| && b[h[k]] != [] && maxKey == Last(b[h[k]]).key;
    SweepGroupNonEmpty(less, maxKey, h, b, k);
    SweepGroupKeys(less, maxKey, h, b);
    assert s.group[0] in s.group;
    forall i | 0 <= i < |b|
      ensures Sorted(less, s.buffers[i]) && forall e :: e in s.buffers[i] ==> less(e.key, maxKey)
    {
      SweepRemaining(less, maxKey, h, b, i);
    }
  }

  /** One round of shuffle keeps the invariant and strictly shrinks the
      buffered pairs: getMaxKey, then updatePairs, which leaves the buffers
      b' and the index list h', then the group pushed to give gs'. */
  lemma ShuffleStep<K(!new), V>(less: (K, K) -> bool, b0: seq<seq<Pair<K, V>>>, b: seq<seq<Pair<K, V>>>,
                               gs: seq<seq<Pair<K, V>>>, h: seq<int>, h': seq<int>, maxKey: K,
                               b': seq<seq<Pair<K, V>>>, gs': seq<seq<Pair<K, V>>>)
    requires StrictTotalOrder(less)
    requires ShuffleInv(less, b0, b, gs, h) && h != []
    requires IsMaxKey(less, h, b, maxKey)
    requires Ascending(h') && forall x :: x in h' <==> x in h && x !in SweepTails(less, maxKey, h, b).emptied
    requires b' == SweepTails(less, maxKey, h, b).buffers && gs' == gs + [SweepTails(less, maxKey, h, b).group]
    ensures ShuffleInv(less, b0, b', gs', h') && TotalSize(b') < TotalSize(b)
  {
    var s := SweepTails(less, maxKey, h, b);
    RoundGroup(less, h, b, maxKey);
    RemovedIndices(less, maxKey, h, b, h');
    SweepPool(less, maxKey, h, b);
    if gs != [] {
      var k :| 0 <= k < |h| && 0 <= h[k] < |b| && b[h[k]] != [] && maxKey == Last(b[h[k]]).key;
      assert Last(b[h[k]]) in b[h[k]];
    }
    DescendingAppend(less, gs, s.group);
    PoolAppend(b0, b, s.buffers, gs, s.group);
  }

  /** A group whose key is below every earlier group's extends a descending list. */
  lemma DescendingAppend<K(!new), V>(less: (K, K) -> bool, gs: seq<seq<Pair<K, V>>>, g: seq<Pair<K, V>>)
    requires StrictTotalOrder(less) && DescendingGroups(less, gs) && IsGroup(g)
    requires gs != [] ==> less(g[0].key, Last(gs)[0].key)
    ensures DescendingGroups(less, gs + [g])
  {
    OrderLawsAll(less);
    var gs': seq<seq<Pair<K, V>>> := gs + [g];
    forall l | 0 <= l < |gs| ensures less(gs'[|gs|][0].key, gs'[l][0].key) {
      if l < |gs| - 1 {
        assert less(Last(gs)[0].key, gs[l][0].key);
      }
    }
  }

  /** Moving a group out of the buffers onto the group list keeps the pool. */
  lemma PoolAppend<K, V>(b0: seq<seq<Pair<K, V>>>, b: seq<seq<Pair<K, V>>>, c: seq<seq<Pair<K, V>>>,
                         gs: seq<seq<Pair<K, V>>>, g: seq<Pair<K, V>>)
    requires multiset(Flatten(gs)) + AllPairs(b) == AllPairs(b0) && |Flatten(gs)| + TotalSize(b) == TotalSize(b0)
    requires multiset(g) + AllPairs(c) == AllPairs(b) && |g| + TotalSize(c) == TotalSize(b)
    ensures multiset(Flatten(gs + [g])) + AllPairs(c) == AllPairs(b0) && |Flatten(gs + [g])| + TotalSize(c) == TotalSize(b0)
  {
    FlattenAppend(gs, g);
    calc {
      multiset(Flatten(gs + [g])) + AllPairs(c);
      (multiset(Flatten(gs)) + multiset(g)) + AllPairs(c);
      multiset(Flatten(gs)) + (multiset(g) + AllPairs(c));
    }
  }

  /** When no buffer has data the groups hold exactly the starting pairs. */
  lemma ShuffleDone<K, V>(less: (K, K) -> bool, b0: seq<seq<Pair<K, V>>>, b: seq<seq<Pair<K, V>>>, gs: seq<seq<Pair<K, V>>>)
    requires ShuffleInv(less, b0, b, gs, [])
    ensures forall i :: 0 <= i < |b| ==> b[i] == []
    ensures multiset(Flatten(gs)) == AllPairs(b0) && |Flatten(gs)| == TotalSize(b0)
  {
    AllPairsEmpty(b);
  }

  /** The reduce loop pops groups from the back of the list, so the groups
      it reduces, in that order, are rs: they come in ascending key order
      and hold the same pairs. */
  lemma ReduceOrder<K, V>(less: (K, K) -> bool, gs: seq<seq<Pair<K, V>>>, rs: seq<seq<Pair<K, V>>>)
    requires DescendingGroups(less, gs) && rs == Reverse(gs)
    ensures AscendingGroups(less, rs) && multiset(Flatten(rs)) == multiset(Flatten(gs))
  {
    ReverseDescending(less, gs);
    FlattenReverseMultiset(gs);
  }

  lemma {:induction false} FlattenReverseMultiset<T>(gs: seq<seq<T>>)
    ensures multiset(Flatten(Reverse(gs))) == multiset(Flatten(gs))
  {
    if gs != [] {
      FlattenReverseMultiset(gs[1..]);
      FlattenAppend(Reverse(gs[1..]), gs[0]);
      FlattenCons(gs[0], gs[1..]);
      assert gs == [gs[0]] + gs[1..];
    }
  }

  lemma {:induction false} FlattenCons<T>(x: seq<T>, gs: seq<seq<T>>)
    ensures Flatten([x] + gs) == x + Flatten(gs)
  {
    if gs != [] {
      var n := |gs| - 1;
      FlattenCons(x, gs[..n]);
      assert ([x] + gs)[..n + 1] == [x] + gs[..n];
    }
  }
}
