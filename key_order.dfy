/** Intermediate pairs and the order on their keys (Ex3/MapReduceFramework.cpp).
    The client's key type K2 is a type parameter `K`; its `operator<` is
    the parameter `less`, assumed to be a strict total order, so two keys
    neither of which is less than the other are equal. */
module KeyOrder {

  datatype Pair<K, V> = Pair(key: K, value: V)

  /** The laws of a strict total order, for one triple of keys:
      irreflexive, transitive, and any two different keys are ordered. */
  ghost predicate OrderLaws<K>(less: (K, K) -> bool, a: K, b: K, c: K) {
    && !less(a, a)
    && (less(a, b) && less(b, c) ==> less(a, c))
    && (a != b ==> less(a, b) || less(b, a))
  }

  ghost predicate StrictTotalOrder<K(!new)>(less: (K, K) -> bool) {
    forall a, b, c :: OrderLaws(less, a, b, c)
  }

  /** The laws for all keys at once, for the proofs that need them. */
  lemma OrderLawsAll<K(!new)>(less: (K, K) -> bool)
    requires StrictTotalOrder(less)
    ensures forall a :: !less(a, a)
    ensures forall a, b, c :: less(a, b) && less(b, c) ==> less(a, c)
    ensures forall a, b :: a != b ==> less(a, b) || less(b, a)
  {
    forall a ensures !less(a, a) {
      assert OrderLaws(less, a, a, a);
    }
    forall a, b, c | less(a, b) && less(b, c) ensures less(a, c) {
      assert OrderLaws(less, a, b, c);
    }
    forall a, b | a != b ensures less(a, b) || less(b, a) {
      assert OrderLaws(less, a, b, b);
    }
  }

  /** comparePairs: orders intermediate pairs by key only. */
  function ComparePairs<K, V>(less: (K, K) -> bool, lhs: Pair<K, V>, rhs: Pair<K, V>): bool {
    less(lhs.key, rhs.key)
  }

  /** Non-decreasing under comparePairs: no later pair is less than an earlier one. */
  ghost predicate Sorted<K, V>(less: (K, K) -> bool, s: seq<Pair<K, V>>) {
    forall i, j :: 0 <= i < j < |s| ==> !ComparePairs(less, s[j], s[i])
  }

  function Last<T>(s: seq<T>): T
    requires s != []
  {
    s[|s| - 1]
  }

  function Reverse<T>(s: seq<T>): (r: seq<T>)
    ensures |r| == |s|
  {
    if s == [] then [] else Reverse(s[1..]) + [s[0]]
  }

  lemma {:induction false} ReverseAt<T>(s: seq<T>, k: nat)
    requires k < |s|
    ensures Reverse(s)[k] == s[|s| - 1 - k]
  {
    if k < |s| - 1 {
      ReverseAt(s[1..], k);
    }
  }

  lemma {:induction false} ReverseSnoc<T>(s: seq<T>, x: T)
    ensures Reverse(s + [x]) == [x] + Reverse(s)
  {
    if s == [] {
      assert [x][1..] == [];
    } else {
      assert (s + [x])[1..] == s[1..] + [x];
      ReverseSnoc(s[1..], x);
    }
  }

  lemma ReverseReverse<T>(s: seq<T>)
    ensures Reverse(Reverse(s)) == s
  {
    forall k | 0 <= k < |s| ensures Reverse(Reverse(s))[k] == s[k] {
      ReverseAt(Reverse(s), k);
      ReverseAt(s, |s| - 1 - k);
    }
  }

  lemma {:induction false} ReverseMultiset<T>(s: seq<T>)
    ensures multiset(Reverse(s)) == multiset(s)
  {
    if s != [] {
      ReverseMultiset(s[1..]);
      assert s == [s[0]] + s[1..];
    }
  }

  // ---- The sort of mapAndSort (line 200) ----

  /** Inserts p before the first pair whose key is not less than p's. */
  function Insert<K, V>(less: (K, K) -> bool, p: Pair<K, V>, s: seq<Pair<K, V>>): seq<Pair<K, V>> {
    if s == [] || !less(s[0].key, p.key) then [p] + s
    else [s[0]] + Insert(less, p, s[1..])
  }

  /** The ordering std::sort leaves behind, computed by insertion sort. Only
      sortedness and the permutation property are used about it; the order
      it gives pairs with equal keys is not promised to anyone. */
  function SortPairs<K, V>(less: (K, K) -> bool, s: seq<Pair<K, V>>): seq<Pair<K, V>> {
    if s == [] then [] else Insert(less, s[0], SortPairs(less, s[1..]))
  }

  lemma {:induction false} InsertMultiset<K, V>(less: (K, K) -> bool, p: Pair<K, V>, s: seq<Pair<K, V>>)
    ensures multiset(Insert(less, p, s)) == multiset(s) + multiset{p}
  {
    if s != [] && less(s[0].key, p.key) {
      InsertMultiset(less, p, s[1..]);
      assert s == [s[0]] + s[1..];
    }
  }

  lemma {:induction false} InsertSorted<K(!new), V>(less: (K, K) -> bool, p: Pair<K, V>, s: seq<Pair<K, V>>)
    requires StrictTotalOrder(less) && Sorted(less, s)
    ensures Sorted(less, Insert(less, p, s))
    ensures Insert(less, p, s) != []
    ensures Insert(less, p, s)[0] == p || (s != [] && Insert(less, p, s)[0] == s[0])
  {
    OrderLawsAll(less);
    if s != [] && less(s[0].key, p.key) {
      var t := Insert(less, p, s[1..]);
      assert Sorted(less, s[1..]);
      InsertSorted(less, p, s[1..]);
      InsertMultiset(less, p, s[1..]);
      var r := [s[0]] + t;
      forall i, j | 0 <= i < j < |r| ensures !ComparePairs(less, r[j], r[i]) {
        if i == 0 {
          assert r[j] in multiset(t);
          assert r[j] in multiset(s[1..]) + multiset{p};
          if r[j] == p {
          } else {
            assert r[j] in s[1..];
            var m :| 0 <= m < |s[1..]| && s[1..][m] == r[j];
            assert s[m + 1] == r[j];
          }
        } else {
          assert r[j] == t[j - 1] && r[i] == t[i - 1];
        }
      }
    }
  }

  /** The sorted buffer is non-decreasing under comparePairs ... */
  lemma {:induction false} SortPairsSorted<K(!new), V>(less: (K, K) -> bool, s: seq<Pair<K, V>>)
    requires StrictTotalOrder(less)
    ensures Sorted(less, SortPairs(less, s))
  {
    if s != [] {
      SortPairsSorted(less, s[1..]);
      InsertSorted(less, s[0], SortPairs(less, s[1..]));
    }
  }

  /** ... and holds exactly the pairs it held before. */
  lemma {:induction false} SortPairsPermutation<K, V>(less: (K, K) -> bool, s: seq<Pair<K, V>>)
    ensures multiset(SortPairs(less, s)) == multiset(s)
  {
    if s != [] {
      SortPairsPermutation(less, s[1..]);
      InsertMultiset(less, s[0], SortPairs(less, s[1..]));
      assert s == [s[0]] + s[1..];
    }
  }

  // ---- Buffers and groups of the shuffle ----

  /** All pairs held by a list of buffers. */
  ghost function AllPairs<K, V>(b: seq<seq<Pair<K, V>>>): multiset<Pair<K, V>> {
    if b == [] then multiset{} else AllPairs(b[..|b| - 1]) + multiset(Last(b))
  }

  function TotalSize<K, V>(b: seq<seq<Pair<K, V>>>): nat {
    if b == [] then 0 else TotalSize(b[..|b| - 1]) + |Last(b)|
  }

  /** Replacing one buffer changes the pool by exactly that buffer's contents. */
  lemma {:induction false} AllPairsUpdate<K, V>(b: seq<seq<Pair<K, V>>>, i: nat, x: seq<Pair<K, V>>)
    requires i < |b|
    ensures AllPairs(b[i := x]) + multiset(b[i]) == AllPairs(b) + multiset(x)
    ensures TotalSize(b[i := x]) + |b[i]| == TotalSize(b) + |x|
  {
    var n := |b| - 1;
    if i < n {
      AllPairsUpdate(b[..n], i, x);
      assert b[i := x][..n] == b[..n][i := x];
      assert Last(b[i := x]) == Last(b);
      assert b[..n][i] == b[i];
      assert AllPairs(b[i := x]) == AllPairs(b[i := x][..n]) + multiset(Last(b[i := x]));
      assert AllPairs(b) == AllPairs(b[..n]) + multiset(Last(b));
      var a1, a0, l := AllPairs(b[i := x][..n]), AllPairs(b[..n]), multiset(Last(b));
      assert a1 + multiset(b[i]) == a0 + multiset(x);
      assert (a1 + multiset(b[i])) + l == (a0 + multiset(x)) + l;
      assert a1 + l + multiset(b[i]) == (a1 + multiset(b[i])) + l;
      assert a0 + l + multiset(x) == (a0 + multiset(x)) + l;
    } else {
      assert b[i := x][..n] == b[..n];
    }
  }

  lemma {:induction false} AllPairsCard<K, V>(b: seq<seq<Pair<K, V>>>)
    ensures |AllPairs(b)| == TotalSize(b)
  {
    if b != [] {
      AllPairsCard(b[..|b| - 1]);
    }
  }

  lemma {:induction false} AllPairsEmpty<K, V>(b: seq<seq<Pair<K, V>>>)
    requires forall i :: 0 <= i < |b| ==> b[i] == []
    ensures AllPairs(b) == multiset{} && TotalSize(b) == 0
  {
    if b != [] {
      AllPairsEmpty(b[..|b| - 1]);
    }
  }

  lemma {:induction false} TotalSizeZero<K, V>(b: seq<seq<Pair<K, V>>>, i: nat)
    requires TotalSize(b) == 0 && i < |b|
    ensures b[i] == []
  {
    if i < |b| - 1 {
      TotalSizeZero(b[..|b| - 1], i);
    }
  }

  function Flatten<T>(g: seq<seq<T>>): (r: seq<T>) {
    if g == [] then [] else Flatten(g[..|g| - 1]) + Last(g)
  }

  lemma FlattenAppend<T>(g: seq<seq<T>>, x: seq<T>)
    ensures Flatten(g + [x]) == Flatten(g) + x
  {
    assert (g + [x])[..|g|] == g;
  }

  /** A group as shuffle builds it: non-empty, every key the first one's. */
  ghost predicate IsGroup<K, V>(g: seq<Pair<K, V>>) {
    g != [] && forall p :: p in g ==> p.key == g[0].key
  }

  /** The key groups shuffle has appended so far: each a group, with keys
      strictly decreasing from one group to the next. */
  ghost predicate DescendingGroups<K, V>(less: (K, K) -> bool, gs: seq<seq<Pair<K, V>>>) {
    && (forall k :: 0 <= k < |gs| ==> IsGroup(gs[k]))
    && (forall k, l :: 0 <= k < l < |gs| ==> less(gs[l][0].key, gs[k][0].key))
  }

  /** The same, in the opposite direction: what the reduce drain sees. */
  ghost predicate AscendingGroups<K, V>(less: (K, K) -> bool, gs: seq<seq<Pair<K, V>>>) {
    && (forall k :: 0 <= k < |gs| ==> IsGroup(gs[k]))
    && (forall k, l :: 0 <= k < l < |gs| ==> less(gs[k][0].key, gs[l][0].key))
  }

  /** Popping groups from the back visits them in ascending key order. */
  lemma ReverseDescending<K, V>(less: (K, K) -> bool, gs: seq<seq<Pair<K, V>>>)
    requires DescendingGroups(less, gs)
    ensures AscendingGroups(less, Reverse(gs))
  {
    var r := Reverse(gs);
    forall k | 0 <= k < |r| ensures IsGroup(r[k]) {
      ReverseAt(gs, k);
    }
    forall k, l | 0 <= k < l < |r| ensures less(r[k][0].key, r[l][0].key) {
      ReverseAt(gs, k);
      ReverseAt(gs, l);
    }
  }

  lemma {:induction false} InFlatten<T>(g: seq<seq<T>>, x: T)
    requires x in multiset(Flatten(g))
    ensures exists k :: 0 <= k < |g| && x in g[k]
  {
    if g != [] {
      var n := |g| - 1;
      assert Flatten(g) == Flatten(g[..n]) + g[n];
      if x in multiset(Flatten(g[..n])) {
        InFlatten(g[..n], x);
        var k :| 0 <= k < n && x in g[..n][k];
        assert g[k] == g[..n][k];
      } else {
        assert x in g[n];
      }
    }
  }

  lemma {:induction false} FlattenHas<T>(g: seq<seq<T>>, k: nat, x: T)
    requires k < |g| && x in g[k]
    ensures x in multiset(Flatten(g))
  {
    var n := |g| - 1;
    assert Flatten(g) == Flatten(g[..n]) + g[n];
    if k < n {
      assert g[..n][k] == g[k];
      FlattenHas(g[..n], k, x);
    }
  }

  /** Grouping correctness: when the groups hold exactly the pool of pairs
      and their keys are strictly ordered, every key of the pool is the key
      of exactly one group and that group holds every pair with the key. */
  lemma OneGroupPerKey<K(!new), V>(less: (K, K) -> bool, gs: seq<seq<Pair<K, V>>>, pool: multiset<Pair<K, V>>, p: Pair<K, V>)
    requires StrictTotalOrder(less) && AscendingGroups(less, gs)
    requires multiset(Flatten(gs)) == pool && p in pool
    ensures exists k :: 0 <= k < |gs| && gs[k][0].key == p.key && p in gs[k]
    ensures forall k, l :: 0 <= k < |gs| && 0 <= l < |gs| && gs[k][0].key == p.key && gs[l][0].key == p.key ==> k == l
  {
    OrderLawsAll(less);
    InFlatten(gs, p);
    var k :| 0 <= k < |gs| && p in gs[k];
    assert IsGroup(gs[k]);
  }
}
