/** The sequential logic of the MapReduce engine (Ex3/MapReduceFramework.cpp):
    emission into per-worker and shared buffers, the map loop of one worker
    followed by its sort, the shuffle merge run by worker 0 and the reduce
    drain. Threads, the barrier and the mutexes are not modelled: each phase
    runs as a plain loop, and workers run one after another. The client's
    map and reduce callbacks are functions that return the pairs they emit,
    in the order they emit them. */
module MapReduceFramework {
  import opened JobState
  import opened KeyOrder
  import opened ShuffleMerge

  /** lo, lo+1, ..., hi-1 */
  function Range(lo: nat, hi: nat): (r: seq<nat>)
    requires lo <= hi
    ensures |r| == hi - lo && forall k :: 0 <= k < |r| ==> r[k] == lo + k
  {
    seq(hi - lo, k => lo + k)
  }

  /** The reduce outputs of a list of groups, one reduce call per group in order. */
  function ReduceOutputs<KV, O>(reduce: seq<KV> -> seq<O>, gs: seq<seq<KV>>): seq<O> {
    if gs == [] then [] else ReduceOutputs(reduce, gs[..|gs| - 1]) + reduce(Last(gs))
  }

  lemma ReduceOutputsSnoc<KV, O>(reduce: seq<KV> -> seq<O>, gs: seq<seq<KV>>, g: seq<KV>)
    ensures ReduceOutputs(reduce, gs + [g]) == ReduceOutputs(reduce, gs) + reduce(g)
  {
    assert (gs + [g])[..|gs|] == gs;
  }

  /** A job: the fields of JobContext that the sequential logic touches,
      with each worker's intermediate buffer as one cell of `buffers`. */
  class Job<I, K(!new), V, O> {
    const input: seq<I>
    const mapFn: I -> seq<Pair<K, V>>
    const reduceFn: seq<Pair<K, V>> -> seq<O>
    const less: (K, K) -> bool
    const threadsNumber: nat
    /** threadsArray[i].intermediateVec, for every worker i. */
    var buffers: seq<seq<Pair<K, V>>>
    /** The group list `intermediateVectors`. */
    var groups: seq<seq<Pair<K, V>>>
    var output: seq<O>
    var state: Word
    var inputCounter: nat
    var intermediateCounter: nat
    var outputCounter: nat
    /** The input indices passed to map, and the groups passed to reduce, in call order. */
    ghost var mapCalls: seq<nat>
    ghost var reduceCalls: seq<seq<Pair<K, V>>>

    predicate Valid()
      reads this
    {
      |buffers| == threadsNumber
    }

    /** The pairs map emits for input indices lo .. hi-1, called in that order. */
    ghost function Emitted(lo: nat, hi: nat): seq<Pair<K, V>>
      requires lo <= hi && (lo < hi ==> hi <= |input|)
      decreases hi - lo
    {
      if lo == hi then [] else Emitted(lo, hi - 1) + mapFn(input[hi - 1])
    }

    /** createJobContext */
    constructor (input: seq<I>, mapFn: I -> seq<Pair<K, V>>, reduceFn: seq<Pair<K, V>> -> seq<O>,
                 less: (K, K) -> bool, multiThreadLevel: nat)
      ensures Valid()
      ensures this.input == input && this.mapFn == mapFn && this.reduceFn == reduceFn
      ensures this.less == less && threadsNumber == multiThreadLevel
      ensures forall i :: 0 <= i < |buffers| ==> buffers[i] == []
      ensures groups == [] && output == [] && mapCalls == [] && reduceCalls == []
      ensures state == InitialWord(|input|)
      ensures inputCounter == 0 && intermediateCounter == 0 && outputCounter == 0
    {
      this.input := input;
      this.mapFn := mapFn;
      this.reduceFn := reduceFn;
      this.less := less;
      threadsNumber := multiThreadLevel;
      buffers := seq(multiThreadLevel, _ => []);
      groups := [];
      output := [];
      state := InitialWord(|input|);
      inputCounter := 0;
      intermediateCounter := 0;
      outputCounter := 0;
      mapCalls := [];
      reduceCalls := [];
    }

    /** emit2: append to the calling worker's own buffer and count the pair. */
    method Emit2(t: nat, p: Pair<K, V>)
      requires t < |buffers|
      modifies this`intermediateCounter, this`buffers
      ensures buffers == old(buffers)[t := old(buffers)[t] + [p]]
      ensures intermediateCounter == old(intermediateCounter) + 1
    {
      buffers := buffers[t := buffers[t] + [p]];
      intermediateCounter := intermediateCounter + 1;
    }

    /** emit3: append to the shared output and count the pair. */
    method Emit3(o: O)
      modifies this`output, this`outputCounter
      ensures output == old(output) + [o]
      ensures outputCounter == old(outputCounter) + 1
    {
      output := output + [o];
      outputCounter := outputCounter + 1;
    }

    /** The client's map on input index num, which calls emit2 once for
        each pair it emits, in order. */
    method CallMap(t: nat, num: nat)
      requires t < |buffers| && num < |input|
      modifies this`intermediateCounter, this`mapCalls, this`buffers
      ensures mapCalls == old(mapCalls) + [num]
      ensures buffers == old(buffers)[t := old(buffers)[t] + mapFn(input[num])]
      ensures intermediateCounter == old(intermediateCounter) + |mapFn(input[num])|
    {
      mapCalls := mapCalls + [num];
      var pairs := mapFn(input[num]);
      var j := 0;
      while j < |pairs|
        modifies this`intermediateCounter, this`buffers
        invariant 0 <= j <= |pairs|
        invariant |buffers| == |old(buffers)| && buffers == old(buffers)[t := buffers[t]]
        invariant buffers[t] == old(buffers)[t] + pairs[..j]
        invariant intermediateCounter == old(intermediateCounter) + j
      {
        Emit2(t, pairs[j]);
        assert pairs[..j + 1] == pairs[..j] + [pairs[j]];
        j := j + 1;
      }
      assert pairs[..j] == pairs;
    }

    /** The index one past the last one a worker claims when the shared
        counter stands at start: the end of the input, or start itself
        when the input is already used up. */
    function MapStop(start: nat): (stop: nat)
      reads this
      ensures start <= stop && (start < stop ==> stop == |input|)
      ensures start < |input| ==> stop == |input|
    {
      if start < |input| then |input| else start
    }

    /** mapAndSort, for worker t: mark the map stage, claim and map input
        indices until they run out, then sort the worker's buffer by key. */
    method MapAndSort(t: nat) returns (ghost mapped: nat)
      requires Valid() && t < threadsNumber && StrictTotalOrder(less)
      modifies this`state, this`inputCounter, this`intermediateCounter, this`mapCalls, this`buffers
      ensures mapCalls == old(mapCalls) + Range(old(inputCounter), MapStop(old(inputCounter)))
      ensures inputCounter == MapStop(old(inputCounter)) + 1
      ensures intermediateCounter == old(intermediateCounter) + |Emitted(old(inputCounter), MapStop(old(inputCounter)))|
      ensures Valid()
      ensures buffers == old(buffers)[t := buffers[t]]
      ensures Sorted(less, buffers[t])
      ensures multiset(buffers[t]) == multiset(old(buffers)[t]) + multiset(Emitted(old(inputCounter), MapStop(old(inputCounter))))
      ensures mapped == MapStop(old(inputCounter)) - old(inputCounter)
      ensures state == IncrementBy(OrStage(old(state), MapStage), mapped)
    {
      ghost var b0 := buffers;
      state := OrStage(state, MapStage);
      mapped := MapInputs(t);
      var unsorted := buffers[t];
      SortPairsSorted(less, unsorted);
      SortPairsPermutation(less, unsorted);
      buffers := buffers[t := SortPairs(less, unsorted)];
      UpdateTwice(b0, t, unsorted, buffers[t]);
    }

    /** The loop of mapAndSort: claim the next index from the shared
        counter, and while it is inside the input call map on it and count
        one unit of progress. It returns the number of indices mapped. */
    method MapInputs(t: nat) returns (ghost count: nat)
      requires t < |buffers|
      modifies this`state, this`inputCounter, this`intermediateCounter, this`mapCalls, this`buffers
      ensures count == MapStop(old(inputCounter)) - old(inputCounter)
      ensures mapCalls == old(mapCalls) + Range(old(inputCounter), MapStop(old(inputCounter)))
      ensures inputCounter == MapStop(old(inputCounter)) + 1
      ensures intermediateCounter == old(intermediateCounter) + |Emitted(old(inputCounter), MapStop(old(inputCounter)))|
      ensures buffers == old(buffers)[t := old(buffers)[t] + Emitted(old(inputCounter), MapStop(old(inputCounter)))]
      ensures state == IncrementBy(old(state), count)
    {
      ghost var start := inputCounter;
      var num := inputCounter;
      inputCounter := inputCounter + 1;
      count := 0;
      while num < |input|
        invariant start <= num <= MapStop(start) && inputCounter == num + 1 && count == num - start
        invariant |buffers| == |old(buffers)| && buffers == old(buffers)[t := buffers[t]]
        invariant buffers[t] == old(buffers)[t] + Emitted(start, num)
        invariant mapCalls == old(mapCalls) + Range(start, num)
        invariant intermediateCounter == old(intermediateCounter) + |Emitted(start, num)|
        invariant state == IncrementBy(old(state), count)
        decreases |input| - num
      {
        CallMap(t, num);
        assert Range(start, num + 1) == Range(start, num) + [num];
        state := Increment(state);
        count := count + 1;
        num := inputCounter;
        inputCounter := inputCounter + 1;
      }
    }

    /** Two updates of the same cell leave the second value. */
    static lemma UpdateTwice(s: seq<seq<Pair<K, V>>>, t: nat, x: seq<Pair<K, V>>, y: seq<Pair<K, V>>)
      requires t < |s|
      ensures s[t := x][t := y] == s[t := y]
    {
    }

    /** Every worker's mapAndSort, run one after another. The first worker
        claims every input index; the others find the counter exhausted. */
    method MapPhase()
      requires Valid() && StrictTotalOrder(less)
      requires inputCounter == 0 && intermediateCounter == 0 && mapCalls == []
      requires forall i :: 0 <= i < |buffers| ==> buffers[i] == []
      requires state == InitialWord(|input|) && |input| < FieldLimit
      requires threadsNumber > 0
      modifies this`state, this`inputCounter, this`intermediateCounter, this`mapCalls, this`buffers
      ensures Valid() && mapCalls == Range(0, |input|)
      ensures forall i :: 0 <= i < |buffers| ==> Sorted(less, buffers[i])
      ensures AllPairs(buffers) == multiset(Emitted(0, |input|))
      ensures intermediateCounter == TotalSize(buffers) == |Emitted(0, |input|)|
      ensures state == MapEnd(|input|)
    {
      ghost var mapped := MapAndSort(0);
      assert |input| == 0 ==> mapCalls == [] == Range(0, 0);
      MapEndFields(|input|);
      ghost var first := buffers[0];
      var t := 1;
      while t < threadsNumber
        invariant 1 <= t <= threadsNumber && Valid()
        invariant inputCounter == |input| + t && mapCalls == Range(0, |input|)
        invariant state == MapEnd(|input|)
        invariant intermediateCounter == |Emitted(0, |input|)|
        invariant buffers[0] == first
        invariant forall i :: 0 < i < |buffers| ==> buffers[i] == []
      {
        mapped := MapAndSort(t);
        assert |buffers[t]| == |multiset(buffers[t])| == 0;
        t := t + 1;
      }
      AllPairsSplit(buffers);
      AllPairsCard(buffers);
    }

    /** With every buffer but the first empty, the pool is the first buffer. */
    static lemma AllPairsSplit(b: seq<seq<Pair<K, V>>>)
      requires |b| > 0 && forall i :: 0 < i < |b| ==> b[i] == []
      ensures AllPairs(b) == multiset(b[0])
      ensures TotalSize(b) == |b[0]|
    {
      if |b| > 1 {
        AllPairsSplit(b[..|b| - 1]);
      }
    }

    /** updateIntermediates: the ascending list of workers whose buffer is non-empty. */
    method UpdateIntermediates() returns (hasData: seq<int>)
      requires Valid()
      ensures NonEmptyIndices(hasData, buffers)
    {
      hasData := [];
      var i := 0;
      while i < threadsNumber
        invariant 0 <= i <= threadsNumber
        invariant forall k :: 0 <= k < |hasData| ==> 0 <= hasData[k] < i && buffers[hasData[k]] != []
        invariant Ascending(hasData)
        invariant forall j :: 0 <= j < i && buffers[j] != [] ==> j in hasData
      {
        if buffers[i] != [] {
          hasData := hasData + [i];
        }
        i := i + 1;
      }
    }

    /** getMaxKey: the greatest key among the tails of the listed buffers. */
    method GetMaxKey(hasData: seq<int>) returns (maxKey: K)
      requires StrictTotalOrder(less)
      requires hasData != []
      requires forall k :: 0 <= k < |hasData| ==> 0 <= hasData[k] < |buffers| && buffers[hasData[k]] != []
      ensures IsMaxKey(less, hasData, buffers, maxKey)
    {
      OrderLawsAll(less);
      maxKey := Last(buffers[hasData[0]]).key;
      var k := 0;
      while k < |hasData|
        invariant 0 <= k <= |hasData|
        invariant exists l :: 0 <= l < |hasData| && maxKey == Last(buffers[hasData[l]]).key
        invariant forall l :: 0 <= l < k ==> !less(maxKey, Last(buffers[hasData[l]]).key)
      {
        var key := Last(buffers[hasData[k]]).key;
        if less(maxKey, key) {
          maxKey := key;
        }
        k := k + 1;
      }
    }

    /** The inner loop of updatePairs for buffer i: pop pairs from its tail
        into the group while their key is not less than maxKey, counting
        each, and report whether the buffer ran empty. */
    method MoveTail(i: nat, maxKey: K) returns (moved: seq<Pair<K, V>>, emptied: bool)
      requires i < |buffers| && buffers[i] != []
      modifies this`state, this`buffers
      ensures moved == Reverse(old(buffers)[i][Kept(less, old(buffers)[i], maxKey)..])
      ensures emptied <==> Kept(less, old(buffers)[i], maxKey) == 0
      ensures buffers == old(buffers)[i := old(buffers)[i][..Kept(less, old(buffers)[i], maxKey)]]
      ensures state == IncrementBy(old(state), |moved|)
    {
      ghost var b0 := buffers[i];
      ghost var m := Kept(less, b0, maxKey);
      moved := [];
      emptied := false;
      while !less(Last(buffers[i]).key, maxKey)
        invariant |buffers| == |old(buffers)| && buffers == old(buffers)[i := buffers[i]]
        invariant buffers[i] != [] && |buffers[i]| <= |b0| && buffers[i] == b0[..|buffers[i]|]
        invariant Kept(less, buffers[i], maxKey) == m
        invariant moved == Reverse(b0[|buffers[i]|..])
        invariant state == IncrementBy(old(state), |moved|)
        decreases |buffers[i]|
      {
        var p := Last(buffers[i]);
        var n := |buffers[i]| - 1;
        moved := moved + [p];
        buffers := buffers[i := buffers[i][..n]];
        assert b0[n..] == [p] + b0[n + 1..];
        state := Increment(state);
        if buffers[i] == [] {
          emptied := true;
          break;
        }
      }
    }

    /** updatePairs: from the tail of every listed buffer, move the pairs
        whose key is not less than maxKey into the group, counting each
        move; then drop the buffers that ran empty from the list, which
        then again names exactly the non-empty buffers. */
    method UpdatePairs(maxKey: K, hasData: seq<int>) returns (hasData': seq<int>, group: seq<Pair<K, V>>)
      requires NonEmptyIndices(hasData, buffers)
      modifies this`state, this`buffers
      ensures buffers == SweepTails(less, maxKey, hasData, old(buffers)).buffers
      ensures group == SweepTails(less, maxKey, hasData, old(buffers)).group
      ensures Ascending(hasData')
      ensures forall x :: x in hasData' <==> x in hasData && x !in SweepTails(less, maxKey, hasData, old(buffers)).emptied
      ensures NonEmptyIndices(hasData', buffers)
      ensures state == IncrementBy(old(state), |group|)
    {
      ghost var b0 := buffers;
      var indicesToRemove;
      group, indicesToRemove := GatherTails(maxKey, hasData);
      hasData' := RemoveIndices(hasData, indicesToRemove);
      RemovedIndices(less, maxKey, hasData, b0, hasData');
    }

    /** The first loop of updatePairs, over the listed buffers in order,
        recording the buffers it empties. */
    method GatherTails(maxKey: K, hasData: seq<int>) returns (group: seq<Pair<K, V>>, indicesToRemove: seq<int>)
      requires NonEmptyIndices(hasData, buffers)
      modifies this`state, this`buffers
      ensures Sweep(buffers, group, indicesToRemove) == SweepTails(less, maxKey, hasData, old(buffers))
      ensures state == IncrementBy(old(state), |group|)
    {
      ghost var b0 := buffers;
      indicesToRemove := [];
      group := [];
      var k := 0;
      while k < |hasData|
        invariant 0 <= k <= |hasData| && |b0| == |buffers|
        invariant Sweep(buffers, group, indicesToRemove) == SweepTails(less, maxKey, hasData[..k], b0)
        invariant state == IncrementBy(old(state), |group|)
      {
        var i := hasData[k];
        AscendingPrefix(hasData, k);
        SweepFrame(less, maxKey, hasData[..k], b0, i);
        ghost var bk := buffers;
        var moved, emptied := MoveTail(i, maxKey);
        assert buffers == bk[i := buffers[i]];
        assert hasData[..k + 1][..k] == hasData[..k];
        IncrementByAdd(old(state), |group|, |moved|);
        group := group + moved;
        if emptied {
          indicesToRemove := indicesToRemove + [i];
        }
        k := k + 1;
      }
      assert hasData[..k] == hasData;
    }

    /** The second loop of updatePairs: find and erase each listed index. */
    static method RemoveIndices(hasData: seq<int>, indicesToRemove: seq<int>) returns (r: seq<int>)
      requires Ascending(hasData)
      ensures Ascending(r)
      ensures forall x :: x in r <==> x in hasData && x !in indicesToRemove
    {
      r := hasData;
      var j := 0;
      while j < |indicesToRemove|
        invariant 0 <= j <= |indicesToRemove|
        invariant Ascending(r)
        invariant forall x :: x in r <==> x in hasData && x !in indicesToRemove[..j]
      {
        EraseFirstAscending(r, indicesToRemove[j]);
        assert indicesToRemove[..j + 1] == indicesToRemove[..j] + [indicesToRemove[j]];
        r := EraseFirst(r, indicesToRemove[j]);
        j := j + 1;
      }
      assert indicesToRemove[..j] == indicesToRemove;
    }

    /** shuffle: while some buffer has data, take the greatest tail key and
        append the group of all pairs with that key. It runs on the empty
        group list. */
    method Shuffle()
      requires Valid() && StrictTotalOrder(less)
      requires forall i :: 0 <= i < |buffers| ==> Sorted(less, buffers[i])
      requires groups == []
      modifies this`state, this`groups, this`buffers
      ensures forall i :: 0 <= i < |buffers| ==> buffers[i] == []
      ensures DescendingGroups(less, groups)
      ensures multiset(Flatten(groups)) == AllPairs(old(buffers))
      ensures state == IncrementBy(old(state), TotalSize(old(buffers)))
    {
      ghost var b0 := buffers;
      var hasData := UpdateIntermediates();
      ShuffleInit(less, b0, hasData);
      ghost var done := 0;
      while hasData != []
        invariant ShuffleInv(less, b0, buffers, groups, hasData)
        invariant done == |Flatten(groups)| && state == IncrementBy(old(state), done)
        decreases TotalSize(buffers)
      {
        ghost var bk, gk, wk := buffers, groups, state;
        var hasData', maxKey;
        hasData', maxKey, done := ShuffleRound(old(state), done, hasData);
        ShuffleStep(less, b0, bk, gk, hasData, hasData', maxKey, buffers, groups);
        FlattenAppend(gk, SweepTails(less, maxKey, hasData, bk).group);
        hasData := hasData';
      }
      ShuffleDone(less, b0, buffers, groups);
    }

    /** One pass of the shuffle loop: getMaxKey, updatePairs, and the new
        group pushed onto the group list. */
    method ShuffleRound(ghost w0: Word, ghost done: nat, hasData: seq<int>) returns (hasData': seq<int>, maxKey: K, ghost done': nat)
      requires StrictTotalOrder(less) && NonEmptyIndices(hasData, buffers) && hasData != []
      requires state == IncrementBy(w0, done)
      modifies this`state, this`groups, this`buffers
      ensures IsMaxKey(less, hasData, old(buffers), maxKey)
      ensures buffers == SweepTails(less, maxKey, hasData, old(buffers)).buffers
      ensures groups == old(groups) + [SweepTails(less, maxKey, hasData, old(buffers)).group]
      ensures Ascending(hasData')
      ensures forall x :: x in hasData' <==> x in hasData && x !in SweepTails(less, maxKey, hasData, old(buffers)).emptied
      ensures done' == done + |SweepTails(less, maxKey, hasData, old(buffers)).group|
      ensures state == IncrementBy(w0, done')
    {
      maxKey := GetMaxKey(hasData);
      var intermediateVectors;
      hasData', intermediateVectors := UpdatePairs(maxKey, hasData);
      IncrementByAdd(w0, done, |intermediateVectors|);
      done' := done + |intermediateVectors|;
      groups := groups + [intermediateVectors];
    }

    /** The part of runSingleThread that worker 0 runs between the two
        barriers: publish the shuffle stage with the number of intermediate
        pairs as total, shuffle, then publish the reduce stage with the
        number of groups as total. Line 263 computes the shuffle word in 32
        bits; this is the corrected word (see ShuffleStartAsWritten). */
    method ShufflePhase()
      requires Valid() && StrictTotalOrder(less)
      requires forall i :: 0 <= i < |buffers| ==> Sorted(less, buffers[i])
      requires intermediateCounter == TotalSize(buffers) && intermediateCounter < FieldLimit
      requires groups == []
      modifies this`state, this`groups, this`buffers
      ensures forall i :: 0 <= i < |buffers| ==> buffers[i] == []
      ensures DescendingGroups(less, groups)
      ensures multiset(Flatten(groups)) == AllPairs(old(buffers))
      ensures |groups| <= intermediateCounter
      ensures state == StageStart(ReduceStage, |groups|)
    {
      state := ShuffleStart(intermediateCounter);
      Shuffle();
      GroupCountBound(groups);
      AllPairsCard(old(buffers));
      state := StageStart(ReduceStage, |groups|);
    }

    /** There are no more groups than pairs. */
    static lemma {:induction false} GroupCountBound(gs: seq<seq<Pair<K, V>>>)
      requires forall k :: 0 <= k < |gs| ==> IsGroup(gs[k])
      ensures |gs| <= |Flatten(gs)|
    {
      if gs != [] {
        GroupCountBound(gs[..|gs| - 1]);
        assert IsGroup(gs[|gs| - 1]);
      }
    }

    /** The client's reduce on one group, which calls emit3 once for each
        output pair, in order. */
    method CallReduce(group: seq<Pair<K, V>>)
      modifies this`output, this`outputCounter, this`reduceCalls
      ensures reduceCalls == old(reduceCalls) + [group]
      ensures output == old(output) + reduceFn(group)
      ensures outputCounter == old(outputCounter) + |reduceFn(group)|
    {
      reduceCalls := reduceCalls + [group];
      var outs := reduceFn(group);
      var j := 0;
      while j < |outs|
        modifies this`output, this`outputCounter
        invariant 0 <= j <= |outs|
        invariant output == old(output) + outs[..j]
        invariant outputCounter == old(outputCounter) + j
      {
        Emit3(outs[j]);
        assert outs[..j + 1] == outs[..j] + [outs[j]];
        j := j + 1;
      }
      assert outs[..j] == outs;
    }

    /** The reduce loop of runSingleThread: pop the last group, reduce it,
        count it, until no group is left. Groups are reduced from the back
        of the list to the front. */
    method ReducePhase()
      modifies this`groups, this`output, this`outputCounter, this`state, this`reduceCalls
      ensures groups == []
      ensures reduceCalls == old(reduceCalls) + Reverse(old(groups))
      ensures output == old(output) + ReduceOutputs(reduceFn, Reverse(old(groups)))
      ensures outputCounter == old(outputCounter) + |ReduceOutputs(reduceFn, Reverse(old(groups)))|
      ensures state == IncrementBy(old(state), |old(groups)|)
    {
      ghost var popped: seq<seq<Pair<K, V>>> := [];
      while groups != []
        invariant groups + Reverse(popped) == old(groups)
        invariant reduceCalls == old(reduceCalls) + popped
        invariant output == old(output) + ReduceOutputs(reduceFn, popped)
        invariant outputCounter == old(outputCounter) + |ReduceOutputs(reduceFn, popped)|
        invariant state == IncrementBy(old(state), |popped|)
        decreases |groups|
      {
        var n := |groups| - 1;
        var intermediateVector := groups[n];
        assert groups == groups[..n] + [intermediateVector];
        groups := groups[..n];
        CallReduce(intermediateVector);
        state := Increment(state);
        ReverseSnoc(popped, intermediateVector);
        ReduceOutputsSnoc(reduceFn, popped, intermediateVector);
        popped := popped + [intermediateVector];
      }
      assert Reverse(popped) == old(groups);
      ReverseReverse(popped);
      assert popped == Reverse(old(groups));
    }

    /** A whole job run with every worker in sequence: the map phase, then
        worker 0's shuffle and the reduce drain. */
    method Run()
      requires Valid() && StrictTotalOrder(less) && threadsNumber > 0
      requires inputCounter == 0 && intermediateCounter == 0 && outputCounter == 0
      requires mapCalls == [] && reduceCalls == [] && groups == []
      requires forall i :: 0 <= i < |buffers| ==> buffers[i] == []
      requires state == InitialWord(|input|)
      requires |input| < FieldLimit && |Emitted(0, |input|)| < FieldLimit
      modifies this
      ensures mapCalls == Range(0, |input|)
      ensures AscendingGroups(less, reduceCalls)
      ensures multiset(Flatten(reduceCalls)) == multiset(Emitted(0, |input|))
      ensures output == old(output) + ReduceOutputs(reduceFn, reduceCalls)
      ensures outputCounter == |ReduceOutputs(reduceFn, reduceCalls)|
      ensures Decode(state) == Fields(ReduceStage, |reduceCalls|, |reduceCalls|)
    {
      MapPhase();
      ghost var gs := ShuffleAndReduce();
      ReduceOrder(less, gs, reduceCalls);
      ReduceEndsComplete(|gs|);
    }

    /** What follows the map phase in runSingleThread: worker 0's shuffle
        phase, then the reduce drain over the groups gs it built. */
    method ShuffleAndReduce() returns (ghost gs: seq<seq<Pair<K, V>>>)
      requires Valid() && StrictTotalOrder(less)
      requires forall i :: 0 <= i < |buffers| ==> Sorted(less, buffers[i])
      requires intermediateCounter == TotalSize(buffers) && intermediateCounter < FieldLimit
      requires reduceCalls == [] && groups == []
      modifies this`state, this`groups, this`buffers, this`output, this`outputCounter, this`reduceCalls
      ensures DescendingGroups(less, gs) && multiset(Flatten(gs)) == AllPairs(old(buffers))
      ensures reduceCalls == Reverse(gs) && |gs| < FieldLimit
      ensures output == old(output) + ReduceOutputs(reduceFn, reduceCalls)
      ensures outputCounter == old(outputCounter) + |ReduceOutputs(reduceFn, reduceCalls)|
      ensures state == IncrementBy(StageStart(ReduceStage, |gs|), |gs|)
    {
      ShufflePhase();
      gs := groups;
      ReducePhase();
    }
  }
}
