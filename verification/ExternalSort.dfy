/** External sorting with bounded runs and k-way merge passes (engine/algorithms/external_sort.py). */
module ExternalSort {
  import opened Common
  import opened Sequences

  /** le(a, b) says that the comparator does not put a behind b. */
  ghost predicate TotalPreorder<T(!new)>(le: (T, T) -> bool) {
    && (forall a, b :: le(a, b) || le(b, a))
    && (forall a, b, c :: le(a, b) && le(b, c) ==> le(a, c))
  }

  ghost predicate SortedBy<T>(s: seq<T>, le: (T, T) -> bool) {
    forall i, j :: 0 <= i < j < |s| ==> le(s[i], s[j])
  }

  lemma SortedMeans<T>(s: seq<T>, le: (T, T) -> bool)
    requires SortedBy(s, le)
    ensures forall i, j :: 0 <= i < j < |s| ==> le(s[i], s[j])
  {
  }

  ghost predicate AllSorted<T>(runs: seq<seq<T>>, le: (T, T) -> bool) {
    forall i :: 0 <= i < |runs| ==> SortedBy(runs[i], le)
  }

  /** All records of the runs, as a bag. */
  ghost function Bag<T>(runs: seq<seq<T>>): multiset<T> {
    multiset(Flatten(runs))
  }

  lemma BagAppend<T>(runs: seq<seq<T>>, r: seq<T>)
    ensures Bag(runs + [r]) == Bag(runs) + multiset(r)
  {
    assert (runs + [r])[..|runs|] == runs;
  }

  lemma BagIs<T>(runs: seq<seq<T>>)
    ensures Bag(runs) == multiset(Flatten(runs))
  {
  }

  lemma BagOfLast<T>(runs: seq<seq<T>>)
    requires runs != []
    ensures Bag(runs) == Bag(runs[..|runs| - 1]) + multiset(runs[|runs| - 1])
  {
  }

  lemma {:induction false} BagConcat<T>(a: seq<seq<T>>, b: seq<seq<T>>)
    ensures Bag(a + b) == Bag(a) + Bag(b)
  {
    hide Bag;
    if b == [] {
      BagNone<T>();
      assert a + b == a;
    } else {
      BagConcat(a, b[..|b| - 1]);
      BagOfLast(b);
      BagOfLast(a + b);
      assert (a + b)[..|a + b| - 1] == a + b[..|b| - 1];
    }
  }

  lemma BagNone<T>()
    ensures Bag<T>([]) == multiset{}
  {
  }

  lemma BagOfOne<T>(r: seq<T>)
    ensures Bag([r]) == multiset(r)
  {
    BagAppend([], r);
    BagNone<T>();
    assert [] + [r] == [r];
  }

  lemma BagHead<T>(s: seq<T>)
    requires s != []
    ensures multiset(s) == multiset(s[1..]) + multiset{s[0]}
  {
    assert s == [s[0]] + s[1..];
  }

  /** Taking the first record of one run takes it out of the bag. */
  lemma {:induction false} BagTake<T>(runs: seq<seq<T>>, i: nat)
    requires i < |runs| && runs[i] != []
    ensures Bag(runs) == Bag(runs[i := runs[i][1..]]) + multiset{runs[i][0]}
    ensures |Flatten(runs)| == |Flatten(runs[i := runs[i][1..]])| + 1
  {
    var front, last := runs[..|runs| - 1], runs[|runs| - 1];
    if i == |runs| - 1 {
      assert runs[i := runs[i][1..]][..|runs| - 1] == front;
      BagHead(last);
    } else {
      assert runs[i := runs[i][1..]][..|runs| - 1] == front[i := runs[i][1..]];
      BagTake(front, i);
    }
  }

  // ----- sorting one chunk -----

  function InsertBy<T>(s: seq<T>, x: T, le: (T, T) -> bool): seq<T> {
    if s == [] || le(s[|s| - 1], x) then s + [x] else InsertBy(s[..|s| - 1], x, le) + [s[|s| - 1]]
  }

  function SortBy<T>(s: seq<T>, le: (T, T) -> bool): seq<T> {
    if s == [] then [] else InsertBy(SortBy(s[..|s| - 1], le), s[|s| - 1], le)
  }

  lemma {:induction false} InsertByIs<T(!new)>(s: seq<T>, x: T, le: (T, T) -> bool)
    requires TotalPreorder(le) && SortedBy(s, le)
    ensures SortedBy(InsertBy(s, x, le), le) && multiset(InsertBy(s, x, le)) == multiset(s) + multiset{x}
  {
    if s != [] && !le(s[|s| - 1], x) {
      var front, last := s[..|s| - 1], s[|s| - 1];
      BagLast(s);
      InsertByIs(front, x, le);
      var r := InsertBy(front, x, le);
      assert InsertBy(s, x, le) == r + [last];
      BagPush(r, last);
      hide InsertBy;
      assert le(x, last) && forall i :: 0 <= i < |front| ==> le(front[i], last);
      forall i | 0 <= i < |r|
        ensures le(r[i], last)
      {
        assert r[i] in multiset(front) + multiset{x};
      }
    }
  }

  lemma {:induction false} SortByIs<T(!new)>(s: seq<T>, le: (T, T) -> bool)
    requires TotalPreorder(le)
    ensures SortedBy(SortBy(s, le), le) && multiset(SortBy(s, le)) == multiset(s)
  {
    if s != [] {
      SortByIs(s[..|s| - 1], le);
      InsertByIs(SortBy(s[..|s| - 1], le), s[|s| - 1], le);
      BagLast(s);
    }
  }

  // ----- merging -----

  /** Every record written so far comes before every record still to come. */
  ghost predicate WrittenFirst<T>(out: seq<T>, rests: seq<seq<T>>, le: (T, T) -> bool) {
    forall i, j, k :: 0 <= i < |out| && 0 <= j < |rests| && 0 <= k < |rests[j]| ==> le(out[i], rests[j][k])
  }

  /** The heap has one entry for each run that is not exhausted: when it was pushed. */
  ghost predicate HeapOf<T>(heap: map<nat, nat>, rests: seq<seq<T>>) {
    forall i: nat :: i in heap <==> i < |rests| && rests[i] != []
  }

  /** Heap order: smaller record first, among equal ones the one pushed first. */
  predicate PopsBefore<T>(rests: seq<seq<T>>, heap: map<nat, nat>, le: (T, T) -> bool, a: nat, b: nat)
    requires a in heap && b in heap && a < |rests| && b < |rests| && rests[a] != [] && rests[b] != []
  {
    if !le(rests[b][0], rests[a][0]) then true
    else if !le(rests[a][0], rests[b][0]) then false
    else heap[a] < heap[b]
  }

  method PopMin<T(!new)>(rests: seq<seq<T>>, heap: map<nat, nat>, le: (T, T) -> bool) returns (run: nat)
    requires TotalPreorder(le) && HeapOf(heap, rests) && heap != map[]
    ensures run in heap && forall i :: i in heap ==> le(rests[run][0], rests[i][0])
    ensures forall i :: i in heap ==> !PopsBefore(rests, heap, le, i, run)
  {
    var todo := heap.Keys;
    assert todo != {};
    run :| run in todo;
    todo := todo - {run};
    while todo != {}
      invariant todo <= heap.Keys && run in heap
      invariant forall i :: i in heap && i !in todo ==> le(rests[run][0], rests[i][0])
      invariant forall i :: i in heap && i !in todo ==> !PopsBefore(rests, heap, le, i, run)
      decreases todo
    {
      var i :| i in todo;
      todo := todo - {i};
      if PopsBefore(rests, heap, le, i, run) {
        run := i;
      }
    }
  }

  /** Push the first record of every run that has one, in the order of the runs. */
  method FirstRecords<T>(inputs: seq<seq<T>>) returns (heap: map<nat, nat>, sequence: nat)
    ensures HeapOf(heap, inputs)
    ensures forall i: nat, j: nat :: i in heap && j in heap && i < j ==> heap[i] < heap[j]
  {
    heap := map[];
    sequence := 0;
    for i := 0 to |inputs|
      invariant forall j: nat :: j in heap <==> j < i && inputs[j] != []
      invariant forall j: nat :: j in heap ==> heap[j] < sequence
      invariant forall j: nat, k: nat :: j in heap && k in heap && j < k ==> heap[j] < heap[k]
    {
      if inputs[i] != [] {
        heap := heap[i := sequence];
        sequence := sequence + 1;
      }
    }
  }

  /** Merge some sorted runs into one. */
  method MergeRuns<T(!new)>(inputs: seq<seq<T>>, le: (T, T) -> bool) returns (out: seq<T>)
    requires TotalPreorder(le) && AllSorted(inputs, le)
    ensures SortedBy(out, le) && multiset(out) == Bag(inputs)
  {
    hide Bag, Flatten, SortedBy, WrittenFirst, PopsBefore, Merging, AllSorted;
    var rests := inputs;
    var heap: map<nat, nat>, sequence: nat := FirstRecords(inputs);
    out := [];
    StartMerging(inputs, le);
    while heap != map[]
      invariant HeapOf(heap, rests) && |rests| == |inputs| && Merging(out, rests, inputs, le)
      decreases |Flatten(rests)|
    {
      var run := PopMin(rests, heap, le);
      var record := rests[run][0];
      BagTake(rests, run);
      MergeStep(out, rests, inputs, run, le);
      out := out + [record];
      rests := rests[run := rests[run][1..]];
      heap := heap - {run};
      if rests[run] != [] {
        heap := heap[run := sequence];
        sequence := sequence + 1;
      }
    }
    MergedAll(out, rests, inputs, le);
  }

  lemma MergedAll<T>(out: seq<T>, rests: seq<seq<T>>, inputs: seq<seq<T>>, le: (T, T) -> bool)
    requires Merging(out, rests, inputs, le) && forall i :: 0 <= i < |rests| ==> rests[i] == []
    ensures SortedBy(out, le) && multiset(out) == Bag(inputs)
  {
    AllExhausted(rests);
  }

  ghost predicate Merging<T>(out: seq<T>, rests: seq<seq<T>>, inputs: seq<seq<T>>, le: (T, T) -> bool) {
    && AllSorted(rests, le) && SortedBy(out, le) && WrittenFirst(out, rests, le)
    && multiset(out) + Bag(rests) == Bag(inputs)
  }

  lemma StartMerging<T>(inputs: seq<seq<T>>, le: (T, T) -> bool)
    requires AllSorted(inputs, le)
    ensures Merging([], inputs, inputs, le)
  {
  }

  lemma MergeStep<T(!new)>(out: seq<T>, rests: seq<seq<T>>, inputs: seq<seq<T>>, run: nat, le: (T, T) -> bool)
    requires TotalPreorder(le) && Merging(out, rests, inputs, le) && run < |rests| && rests[run] != []
    requires forall i :: 0 <= i < |rests| && rests[i] != [] ==> le(rests[run][0], rests[i][0])
    ensures Merging(out + [rests[run][0]], rests[run := rests[run][1..]], inputs, le)
  {
    PopKeeps(out, rests, run, le);
    BagTake(rests, run);
    BagPush(out, rests[run][0]);
    hide Bag, SortedBy, WrittenFirst, AllSorted, TotalPreorder;
    var a, b, x := multiset(out), Bag(rests[run := rests[run][1..]]), multiset{rests[run][0]};
    assert (a + x) + b == a + (b + x);
  }

  lemma PopKeeps<T(!new)>(out: seq<T>, rests: seq<seq<T>>, run: nat, le: (T, T) -> bool)
    requires TotalPreorder(le) && AllSorted(rests, le) && run < |rests| && rests[run] != []
    requires SortedBy(out, le) && WrittenFirst(out, rests, le)
    requires forall i :: 0 <= i < |rests| && rests[i] != [] ==> le(rests[run][0], rests[i][0])
    ensures var rests' := rests[run := rests[run][1..]];
            AllSorted(rests', le) && SortedBy(out + [rests[run][0]], le) && WrittenFirst(out + [rests[run][0]], rests', le)
  {
    var rests' := rests[run := rests[run][1..]];
    forall j, k | 0 <= j < |rests'| && 0 <= k < |rests'[j]|
      ensures le(rests[run][0], rests'[j][k])
      ensures forall i :: 0 <= i < |out| ==> le(out[i], rests'[j][k])
    {
      var l := if j == run then k + 1 else k;
      assert rests'[j][k] == rests[j][l];
      assert SortedBy(rests[j], le);
      assert l > 0 ==> le(rests[j][0], rests[j][l]);
      assert le(rests[run][0], rests[j][0]);
    }
    forall i | 0 <= i < |rests'|
      ensures SortedBy(rests'[i], le)
    {
      assert SortedBy(rests[i], le);
    }
  }

  lemma {:induction false} AllExhausted<T>(rests: seq<seq<T>>)
    requires forall i :: 0 <= i < |rests| ==> rests[i] == []
    ensures Bag(rests) == multiset{}
  {
    if rests != [] {
      AllExhausted(rests[..|rests| - 1]);
    }
  }

  lemma NothingMerged<T>(runs: seq<seq<T>>, le: (T, T) -> bool)
    ensures AllSorted([], le) && Bag<T>([]) == Bag(runs[..0])
  {
    assert runs[..0] == [];
  }

  lemma GroupIs<T>(runs: seq<seq<T>>, start: nat, end: nat, le: (T, T) -> bool)
    requires AllSorted(runs, le) && start <= end <= |runs|
    ensures AllSorted(runs[start..end], le)
    ensures Bag(runs[..end]) == Bag(runs[..start]) + Bag(runs[start..end])
  {
    hide Bag, SortedBy;
    assert runs[..end] == runs[..start] + runs[start..end];
    BagConcat(runs[..start], runs[start..end]);
  }

  lemma OnlyRun<T>(group: seq<seq<T>>, le: (T, T) -> bool)
    requires AllSorted(group, le) && |group| == 1
    ensures SortedBy(group[0], le) && multiset(group[0]) == Bag(group)
  {
    hide Bag, SortedBy;
    BagOfOne(group[0]);
    assert group == [group[0]];
  }

  lemma SortedAppend<T>(runs: seq<seq<T>>, run: seq<T>, le: (T, T) -> bool)
    requires AllSorted(runs, le) && SortedBy(run, le)
    ensures AllSorted(runs + [run], le)
  {
    hide SortedBy;
  }

  /** The runs after one pass: every fanIn of them merged into one. */
  method MergePass<T(!new)>(runs: seq<seq<T>>, le: (T, T) -> bool, fanIn: nat) returns (merged: seq<seq<T>>)
    requires TotalPreorder(le) && AllSorted(runs, le) && fanIn >= 2 && |runs| > 1
    ensures AllSorted(merged, le) && Bag(merged) == Bag(runs)
    ensures 1 <= |merged| < |runs|
    ensures (|merged| - 1) * fanIn < |runs| <= |merged| * fanIn
  {
    hide Bag, SortedBy, AllSorted;
    merged := [];
    var start := 0;
    NothingMerged(runs, le);
    while start < |runs|
      invariant start <= |runs| && AllSorted(merged, le) && Bag(merged) == Bag(runs[..start])
      invariant start == |merged| * fanIn || (start == |runs| && (|merged| - 1) * fanIn < start <= |merged| * fanIn)
      invariant |merged| <= start && (start > 1 ==> |merged| < start)
      decreases |runs| - start
    {
      var end := if start + fanIn < |runs| then start + fanIn else |runs|;
      var group := runs[start..end];
      GroupIs(runs, start, end, le);
      var out: seq<T>;
      if |group| == 1 {
        out := group[0];
        OnlyRun(group, le);
      } else {
        out := MergeRuns(group, le);
      }
      BagAppend(merged, out);
      SortedAppend(merged, out, le);
      CountStep(|merged|, fanIn);
      merged := merged + [out];
      start := end;
    }
    assert runs[..|runs|] == runs;
  }

  lemma CountStep(n: nat, f: nat)
    ensures (n + 1) * f == n * f + f
  {
  }

  /** Passes until one run is left; the number of runs falls in every pass. */
  method MergeSortedRuns<T(!new)>(inputs: seq<seq<T>>, le: (T, T) -> bool, fanIn: int) returns (out: Option<seq<T>>)
    requires TotalPreorder(le) && AllSorted(inputs, le)
    ensures out.None? <==> fanIn < 2
    ensures out.Some? ==> SortedBy(out.value, le) && multiset(out.value) == multiset(Flatten(inputs))
    ensures out.Some? ==> forall i, j :: 0 <= i < j < |out.value| ==> le(out.value[i], out.value[j])
  {
    BagIs(inputs);
    hide Bag, SortedBy;
    if fanIn < 2 {
      return None;
    }
    var runs := inputs;
    while |runs| > 1
      invariant AllSorted(runs, le) && Bag(runs) == Bag(inputs)
      decreases |runs|
    {
      runs := MergePass(runs, le, fanIn);
    }
    if runs == [] {
      BagNone<T>();
      EmptySorted(le);
      return Some([]);
    }
    BagOfOne(runs[0]);
    assert runs == [runs[0]];
    SortedMeans(runs[0], le);
    return Some(runs[0]);
  }

  lemma EmptySorted<T>(le: (T, T) -> bool)
    ensures SortedBy([], le)
  {
  }

  /** Each run is its chunk, sorted. */
  ghost predicate SortedChunks<T>(runs: seq<seq<T>>, chunks: seq<seq<T>>, le: (T, T) -> bool) {
    |runs| == |chunks| && forall i :: 0 <= i < |chunks| ==> runs[i] == SortBy(chunks[i], le)
  }

  /** Consecutive chunks of the input within the memory limit, each sorted; together they are the input. */
  method CreateInitialRuns<T(!new)>(records: seq<T>, size: T -> nat, le: (T, T) -> bool, limit: nat)
    returns (runs: seq<seq<T>>, ghost chunks: seq<seq<T>>)
    requires TotalPreorder(le) && limit > 0
    ensures Flatten(chunks) == records && ChunksOk(chunks, size, limit) && SortedChunks(runs, chunks, le)
    ensures AllSorted(runs, le) && Bag(runs) == multiset(records)
  {
    runs, chunks := [], [];
    var chunk: seq<T>, used: nat := [], 0;
    NoChunks(records, size, limit);
    assert SortedChunks(runs, chunks, le);
    hide SortedChunks, SortBy, Chunking, ChunksOk, ChunkOk, TotalSize, Flatten, AllSorted, Bag;
    for n := 0 to |records|
      invariant SortedChunks(runs, chunks, le) && Chunking(chunks, chunk, used, records, n, size, limit)
    {
      if chunk != [] && used + size(records[n]) > limit {
        OneMoreRun(runs, chunks, chunk, le);
        ChunkDone(chunks, chunk, used, records, n, size, limit);
        runs, chunks := runs + [SortBy(chunk, le)], chunks + [chunk];
        chunk, used := [], 0;
      }
      ChunkGrows(chunks, chunk, used, records, n, size, limit);
      chunk, used := chunk + [records[n]], used + size(records[n]);
      if used >= limit {
        OneMoreRun(runs, chunks, chunk, le);
        ChunkDone(chunks, chunk, used, records, n + 1, size, limit);
        runs, chunks := runs + [SortBy(chunk, le)], chunks + [chunk];
        chunk, used := [], 0;
      }
    }
    if chunk != [] {
      OneMoreRun(runs, chunks, chunk, le);
      ChunkDone(chunks, chunk, used, records, |records|, size, limit);
      runs, chunks := runs + [SortBy(chunk, le)], chunks + [chunk];
      chunk, used := [], 0;
    }
    ChunkedAll(chunks, used, records, size, limit);
    RunsAreChunks(runs, chunks, le);
    BagIs(chunks);
  }

  lemma OneMoreRun<T>(runs: seq<seq<T>>, chunks: seq<seq<T>>, chunk: seq<T>, le: (T, T) -> bool)
    requires SortedChunks(runs, chunks, le)
    ensures SortedChunks(runs + [SortBy(chunk, le)], chunks + [chunk], le)
  {
    hide SortBy;
  }

  lemma {:induction false} RunsAreChunks<T(!new)>(runs: seq<seq<T>>, chunks: seq<seq<T>>, le: (T, T) -> bool)
    requires TotalPreorder(le) && SortedChunks(runs, chunks, le)
    ensures AllSorted(runs, le) && Bag(runs) == Bag(chunks)
    decreases |runs|
  {
    hide SortBy, SortedBy, Bag;
    if runs == [] {
      assert chunks == [];
    } else {
      var front, chunksFront, last := runs[..|runs| - 1], chunks[..|chunks| - 1], chunks[|chunks| - 1];
      RunsAreChunks(front, chunksFront, le);
      SortByIs(last, le);
      BagOfLast(runs);
      BagOfLast(chunks);
      SortedAppend(front, runs[|runs| - 1], le);
      assert runs == front + [runs[|runs| - 1]];
    }
  }

  /** The output is a sorted permutation of the input, at any memory limit and fan-in. */
  method Sort<T(!new)>(records: seq<T>, size: T -> nat, le: (T, T) -> bool, memoryLimit: int, fanIn: int) returns (out: Option<seq<T>>)
    requires TotalPreorder(le)
    ensures out.None? <==> memoryLimit <= 0 || fanIn < 2
    ensures out.Some? ==> multiset(out.value) == multiset(records)
    ensures out.Some? ==> forall i, j :: 0 <= i < j < |out.value| ==> le(out.value[i], out.value[j])
  {
    if memoryLimit <= 0 || fanIn < 2 {
      return None;
    }
    var runs, _ := CreateInitialRuns(records, size, le, memoryLimit);
    out := MergeSortedRuns(runs, le, fanIn);
  }
}
