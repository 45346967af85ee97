/**
 External hash join and group-by (engine/algorithms/external_hash.py): partitioning by a
 salted hash of the key, recursion into partitions that are too large, and a block join
 where even the deepest partitions are.
 */
module ExternalHash {
  import opened Common
  import opened Sequences

  /** A record is its bytes; a partition file is the sequence of records written to it. */
  type Record = seq<nat>

  const LENGTH_SIZE: nat := 4

  function SerializedSize(r: Record): nat {
    LENGTH_SIZE + |r|
  }

  function FileSize(rs: seq<Record>): nat {
    TotalSize(rs, SerializedSize)
  }

  /** A file takes the bytes of its records and four for the length of each. */
  lemma {:induction false} FileBytes(rs: seq<Record>)
    ensures FileSize(rs) == |Flatten(rs)| + 4 * |rs|
  {
    if rs != [] {
      FileBytes(rs[..|rs| - 1]);
    }
  }

  /** The salted hash decides the partition at each level. */
  datatype Plan<!K> = Plan(hash: (K, nat) -> nat, partitionCount: nat, memoryLimit: nat, maxDepth: nat)

  function PartitionIndex<K>(p: Plan<K>, key: K, level: nat): nat
    requires p.partitionCount > 0
  {
    p.hash(key, level) % p.partitionCount
  }

  predicate ValidParameters(memoryLimit: int, partitionCount: int, maxDepth: int) {
    memoryLimit > 0 && partitionCount >= 2 && maxDepth >= 0
  }

  // ----- partitioning -----

  /** The records of partition i, in input order. */
  function Part<K>(p: Plan<K>, key: Record -> K, rs: seq<Record>, level: nat, i: nat): seq<Record>
    requires p.partitionCount > 0
  {
    if rs == [] then []
    else if PartitionIndex(p, key(rs[|rs| - 1]), level) == i
    then Part(p, key, rs[..|rs| - 1], level, i) + [rs[|rs| - 1]]
    else Part(p, key, rs[..|rs| - 1], level, i)
  }

  lemma PartAppend<K>(p: Plan<K>, key: Record -> K, rs: seq<Record>, r: Record, level: nat, i: nat)
    requires p.partitionCount > 0
    ensures Part(p, key, rs + [r], level, i) ==
            if PartitionIndex(p, key(r), level) == i then Part(p, key, rs, level, i) + [r] else Part(p, key, rs, level, i)
  {
    assert (rs + [r])[..|rs|] == rs;
  }

  lemma {:induction false} PartCount<K>(p: Plan<K>, key: Record -> K, rs: seq<Record>, level: nat, i: nat, r: Record)
    requires p.partitionCount > 0
    ensures multiset(Part(p, key, rs, level, i))[r] == if PartitionIndex(p, key(r), level) == i then multiset(rs)[r] else 0
  {
    if rs != [] {
      PartCount(p, key, rs[..|rs| - 1], level, i, r);
      BagLast(rs);
    }
  }

  method PartitionRecords<K>(p: Plan<K>, key: Record -> K, rs: seq<Record>, level: nat) returns (files: seq<seq<Record>>)
    requires p.partitionCount > 0
    ensures |files| == p.partitionCount
    ensures forall i :: 0 <= i < |files| ==> files[i] == Part(p, key, rs, level, i)
  {
    hide PartitionIndex;
    files := seq(p.partitionCount, i => []);
    assert rs[..0] == [];
    for n := 0 to |rs|
      invariant |files| == p.partitionCount
      invariant forall i :: 0 <= i < |files| ==> files[i] == Part(p, key, rs[..n], level, i)
    {
      assert rs[..n + 1] == rs[..n] + [rs[n]];
      var at := PartitionNumber(p, key(rs[n]), level);
      forall i | 0 <= i < |files|
        ensures Part(p, key, rs[..n + 1], level, i) == if i == at then files[i] + [rs[n]] else files[i]
      {
        PartAppend(p, key, rs[..n], rs[n], level, i);
      }
      files := files[at := files[at] + [rs[n]]];
    }
    assert rs[..|rs|] == rs;
  }

  method PartitionNumber<K>(p: Plan<K>, key: K, level: nat) returns (i: nat)
    requires p.partitionCount > 0
    ensures i == PartitionIndex(p, key, level) < p.partitionCount
  {
    i := p.hash(key, level) % p.partitionCount;
  }

  // ----- group by -----

  /** The aggregate of one key, folded over its records in input order. */
  function FoldKey<K(==), A>(rs: seq<Record>, key: Record -> K, step: (Option<A>, Record) -> A, k: K): Option<A> {
    if rs == [] then None
    else
      var before := FoldKey(rs[..|rs| - 1], key, step, k);
      if key(rs[|rs| - 1]) == k then Some(step(before, rs[|rs| - 1])) else before
  }

  lemma FoldNothing<K, A>(key: Record -> K, step: (Option<A>, Record) -> A, k: K)
    ensures FoldKey([], key, step, k) == None
  {
  }

  lemma FoldAppend<K, A>(rs: seq<Record>, r: Record, key: Record -> K, step: (Option<A>, Record) -> A, k: K)
    ensures FoldKey(rs + [r], key, step, k) ==
            if key(r) == k then Some(step(FoldKey(rs, key, step, k), r)) else FoldKey(rs, key, step, k)
  {
    assert (rs + [r])[..|rs|] == rs;
  }

  /** A partition sees all records of its keys, in order. */
  lemma {:induction false} FoldPart<K, A>(p: Plan<K>, rs: seq<Record>, key: Record -> K, step: (Option<A>, Record) -> A, k: K, level: nat)
    requires p.partitionCount > 0
    ensures FoldKey(Part(p, key, rs, level, PartitionIndex(p, k, level)), key, step, k) == FoldKey(rs, key, step, k)
  {
    if rs != [] {
      var front, last := rs[..|rs| - 1], rs[|rs| - 1];
      var i := PartitionIndex(p, k, level);
      FoldPart(p, front, key, step, k, level);
      hide PartitionIndex;
      if PartitionIndex(p, key(last), level) == i {
        FoldAppend(Part(p, key, front, level, i), last, key, step, k);
      }
    }
  }

  /**
   The aggregate of a key, written out: the records at `at` are those with the key, in input order;
   accs are the aggregates after each of them, the first starting from none.
   */
  ghost predicate Folded<K, A(!new)>(rs: seq<Record>, key: Record -> K, step: (Option<A>, Record) -> A, k: K, a: A, at: seq<nat>, accs: seq<A>) {
    && Places(at, |rs|) && |accs| == |at| > 0 && accs[|accs| - 1] == a
    && (forall i {:trigger rs[i]} :: 0 <= i < |rs| ==> (i in at <==> key(rs[i]) == k))
    && accs[0] == step(None, rs[at[0]])
    && (forall j {:trigger accs[j]} :: 0 < j < |accs| ==> accs[j] == step(Some(accs[j - 1]), rs[at[j]]))
  }

  ghost predicate IsFold<K, A(!new)>(rs: seq<Record>, key: Record -> K, step: (Option<A>, Record) -> A, k: K, a: A) {
    exists at: seq<nat>, accs: seq<A> :: Folded(rs, key, step, k, a, at, accs)
  }

  lemma {:induction false} NoneFolded<K, A>(rs: seq<Record>, key: Record -> K, step: (Option<A>, Record) -> A, k: K)
    requires FoldKey(rs, key, step, k) == None
    ensures forall i :: 0 <= i < |rs| ==> key(rs[i]) != k
  {
    if rs != [] {
      NoneFolded(rs[..|rs| - 1], key, step, k);
      assert forall i :: 0 <= i < |rs| - 1 ==> rs[..|rs| - 1][i] == rs[i];
    }
  }

  lemma FoldedMore<K, A(!new)>(front: seq<Record>, r: Record, key: Record -> K, step: (Option<A>, Record) -> A, k: K, a: A, at: seq<nat>, accs: seq<A>)
    requires Folded(front, key, step, k, a, at, accs)
    ensures if key(r) == k then Folded(front + [r], key, step, k, step(Some(a), r), at + [|front|], accs + [step(Some(a), r)])
            else Folded(front + [r], key, step, k, a, at, accs)
  {
    OneMorePlace(at, |front|);
    hide Places;
    assert forall i :: 0 <= i < |front| ==> (front + [r])[i] == front[i];
    assert forall j :: 0 <= j < |at| ==> at[j] in at && at[j] < |front| by { PlacesWithin(at, |front|); }
  }

  lemma {:induction false} FoldIs<K, A(!new)>(rs: seq<Record>, key: Record -> K, step: (Option<A>, Record) -> A, k: K, a: A)
    returns (at: seq<nat>, accs: seq<A>)
    requires FoldKey(rs, key, step, k) == Some(a)
    ensures Folded(rs, key, step, k, a, at, accs)
  {
    var front, last := rs[..|rs| - 1], rs[|rs| - 1];
    assert rs == front + [last];
    var before := FoldKey(front, key, step, k);
    if before == None {
      NoneFolded(front, key, step, k);
      at, accs := [|front|], [a];
      assert forall i :: 0 <= i < |front| ==> rs[i] == front[i];
    } else {
      at, accs := FoldIs(front, key, step, k, before.value);
      FoldedMore(front, last, key, step, k, before.value, at, accs);
      if key(last) == k {
        at, accs := at + [|front|], accs + [step(before, last)];
      }
    }
  }

  lemma GroupsAreFolded<K, A(!new)>(out: seq<(K, A)>, rs: seq<Record>, key: Record -> K, step: (Option<A>, Record) -> A)
    requires GroupsOf(out, rs, key, step)
    ensures forall i :: 0 <= i < |out| ==> IsFold(rs, key, step, out[i].0, out[i].1)
  {
    hide Folded, FoldKey;
    forall i | 0 <= i < |out|
      ensures IsFold(rs, key, step, out[i].0, out[i].1)
    {
      var at, accs := FoldIs(rs, key, step, out[i].0, out[i].1);
    }
  }

  /** Each key that occurs appears once with its folded aggregate, and no other key appears. */
  ghost predicate GroupsOf<K, A(!new)>(out: seq<(K, A)>, rs: seq<Record>, key: Record -> K, step: (Option<A>, Record) -> A) {
    && (forall i :: 0 <= i < |out| ==> FoldKey(rs, key, step, out[i].0) == Some(out[i].1))
    && (forall i, j :: 0 <= i < j < |out| ==> out[i].0 != out[j].0)
    && (forall r: Record {:trigger key(r)} :: r in rs ==> HasKey(out, key(r)))
  }

  ghost predicate HasKey<K, A>(out: seq<(K, A)>, k: K) {
    exists i :: 0 <= i < |out| && out[i].0 == k
  }

  /** Fold all records of one partition in a table. */
  method GroupInMemory<K(==), A(!new)>(rs: seq<Record>, key: Record -> K, step: (Option<A>, Record) -> A) returns (out: seq<(K, A)>)
    ensures GroupsOf(out, rs, key, step)
  {
    hide FoldKey;
    var groups: map<K, A> := map[];
    var order: seq<K> := [];
    assert rs[..0] == [];
    forall k: K
      ensures FoldKey(rs[..0], key, step, k) == None
    {
      FoldNothing(key, step, k);
    }
    for n := 0 to |rs|
      invariant forall k :: k in groups <==> k in order
      invariant forall i, j :: 0 <= i < j < |order| ==> order[i] != order[j]
      invariant forall k :: FoldKey(rs[..n], key, step, k) == if k in groups then Some(groups[k]) else None
      invariant forall m :: 0 <= m < n ==> key(rs[m]) in groups
    {
      var r := rs[n];
      var k := key(r);
      assert rs[..n + 1] == rs[..n] + [r];
      forall x: K
        ensures FoldKey(rs[..n + 1], key, step, x) ==
                if key(r) == x then Some(step(FoldKey(rs[..n], key, step, x), r)) else FoldKey(rs[..n], key, step, x)
      {
        FoldAppend(rs[..n], r, key, step, x);
      }
      if k !in groups {
        order := order + [k];
      }
      groups := groups[k := step(if k in groups then Some(groups[k]) else None, r)];
    }
    WholePrefix(rs);
    out := [];
    for i := 0 to |order|
      invariant |out| == i && forall j :: 0 <= j < i ==> out[j].0 == order[j] && order[j] in groups && out[j].1 == groups[order[j]]
    {
      assert order[i] in order;
      out := out + [(order[i], groups[order[i]])];
    }
    forall r: Record | r in rs
      ensures HasKey(out, key(r))
    {
      var m :| 0 <= m < |rs| && rs[m] == r;
      assert key(rs[m]) in order;
      var i :| 0 <= i < |order| && order[i] == key(r);
      assert out[i].0 == key(r);
    }
  }

  /** Group one partition file: directly if it fits or is deep enough, else through its own partitions. */
  method GroupPartition<K(==), A(!new)>(p: Plan<K>, rs: seq<Record>, key: Record -> K, step: (Option<A>, Record) -> A, level: nat)
    returns (out: seq<(K, A)>)
    requires p.partitionCount > 0
    ensures GroupsOf(out, rs, key, step)
    decreases p.maxDepth + 1 - level, 0
  {
    if FileSize(rs) > p.memoryLimit && level <= p.maxDepth {
      out := GroupParts(p, rs, key, step, level);
    } else {
      out := GroupInMemory(rs, key, step);
    }
  }

  /** The groups of the first n partitions. */
  ghost predicate GroupsUpTo<K, A(!new)>(p: Plan<K>, out: seq<(K, A)>, rs: seq<Record>, key: Record -> K, step: (Option<A>, Record) -> A,
                                             level: nat, n: nat)
    requires p.partitionCount > 0
  {
    && (forall i :: 0 <= i < |out| ==> FoldKey(rs, key, step, out[i].0) == Some(out[i].1) && PartitionIndex(p, out[i].0, level) < n)
    && (forall i, j :: 0 <= i < j < |out| ==> out[i].0 != out[j].0)
    && (forall r: Record {:trigger key(r)} :: r in rs && PartitionIndex(p, key(r), level) < n ==> HasKey(out, key(r)))
  }

  method GroupParts<K(==), A(!new)>(p: Plan<K>, rs: seq<Record>, key: Record -> K, step: (Option<A>, Record) -> A, level: nat)
    returns (out: seq<(K, A)>)
    requires p.partitionCount > 0 && level <= p.maxDepth
    ensures GroupsOf(out, rs, key, step)
    decreases p.maxDepth - level, 1
  {
    hide PartitionIndex, FoldKey;
    var files := PartitionRecords(p, key, rs, level);
    out := [];
    for n := 0 to |files|
      invariant GroupsUpTo(p, out, rs, key, step, level, n)
    {
      var more := GroupPartition(p, files[n], key, step, level + 1);
      OneMorePart(p, out, more, rs, key, step, level, n);
      out := out + more;
    }
    AllParts(p, out, rs, key, step, level);
  }

  lemma AllParts<K, A(!new)>(p: Plan<K>, out: seq<(K, A)>, rs: seq<Record>, key: Record -> K, step: (Option<A>, Record) -> A, level: nat)
    requires p.partitionCount > 0 && GroupsUpTo(p, out, rs, key, step, level, p.partitionCount)
    ensures GroupsOf(out, rs, key, step)
  {
  }

  lemma {:induction false} KeysOfPart<K, A>(p: Plan<K>, rs: seq<Record>, key: Record -> K, step: (Option<A>, Record) -> A, level: nat, n: nat, k: K)
    requires p.partitionCount > 0 && FoldKey(Part(p, key, rs, level, n), key, step, k).Some?
    ensures PartitionIndex(p, k, level) == n
  {
    if rs != [] {
      var front, last := rs[..|rs| - 1], rs[|rs| - 1];
      if PartitionIndex(p, key(last), level) == n {
        FoldAppend(Part(p, key, front, level, n), last, key, step, k);
        if key(last) != k {
          KeysOfPart(p, front, key, step, level, n, k);
        }
      } else {
        KeysOfPart(p, front, key, step, level, n, k);
      }
    }
  }

  lemma OneMorePart<K, A(!new)>(p: Plan<K>, out: seq<(K, A)>, more: seq<(K, A)>, rs: seq<Record>, key: Record -> K,
                                    step: (Option<A>, Record) -> A, level: nat, n: nat)
    requires p.partitionCount > 0 && GroupsUpTo(p, out, rs, key, step, level, n)
    requires GroupsOf(more, Part(p, key, rs, level, n), key, step)
    ensures GroupsUpTo(p, out + more, rs, key, step, level, n + 1)
  {
    hide PartitionIndex, FoldKey, Part;
    var all := out + more;
    forall i | 0 <= i < |more|
      ensures FoldKey(rs, key, step, more[i].0) == Some(more[i].1) && PartitionIndex(p, more[i].0, level) == n
    {
      KeysOfPart(p, rs, key, step, level, n, more[i].0);
      FoldPart(p, rs, key, step, more[i].0, level);
    }
    forall r: Record | r in rs && PartitionIndex(p, key(r), level) < n + 1
      ensures HasKey(all, key(r))
    {
      if PartitionIndex(p, key(r), level) < n {
        assert HasKey(out, key(r));
        var i :| 0 <= i < |out| && out[i].0 == key(r);
        assert all[i].0 == key(r);
      } else {
        PartCount(p, key, rs, level, n, r);
        assert r in multiset(rs);
        assert r in multiset(Part(p, key, rs, level, n));
        assert HasKey(more, key(r));
        var i :| 0 <= i < |more| && more[i].0 == key(r);
        assert all[|out| + i].0 == key(r);
      }
    }
  }

  /** Every distinct key once, its aggregate folded in input order, whatever the limits are. */
  method ExternalHashGroupBy<K(==), A(!new)>(rs: seq<Record>, key: Record -> K, step: (Option<A>, Record) -> A, hash: (K, nat) -> nat,
                                             memoryLimit: int, partitionCount: int, maxDepth: int)
    returns (out: Option<seq<(K, A)>>)
    ensures out.None? <==> memoryLimit <= 0 || partitionCount <= 1 || maxDepth < 0
    ensures out.Some? ==> forall i :: 0 <= i < |out.value| ==> IsFold(rs, key, step, out.value[i].0, out.value[i].1)
    ensures out.Some? ==> forall i, j :: 0 <= i < j < |out.value| ==> out.value[i].0 != out.value[j].0
    ensures out.Some? ==> forall r: Record {:trigger key(r)} :: r in rs ==> HasKey(out.value, key(r))
  {
    if !ValidParameters(memoryLimit, partitionCount, maxDepth) {
      return None;
    }
    var p: Plan<K> := Plan(hash, partitionCount, memoryLimit, maxDepth);
    var groups := GroupParts(p, rs, key, step, 0);
    hide FoldKey, Folded;
    GroupsAreFolded(groups, rs, key, step);
    out := Some(groups);
  }

  // ----- join -----

  /** All pairs with equal keys, in nested-loop order. */
  function MatchesOf<K(==)>(l: Record, right: seq<Record>, lkey: Record -> K, rkey: Record -> K): seq<(Record, Record)> {
    if right == [] then []
    else
      var rest := MatchesOf(l, right[..|right| - 1], lkey, rkey);
      if lkey(l) == rkey(right[|right| - 1]) then rest + [(l, right[|right| - 1])] else rest
  }

  function NestedLoop<K(==)>(left: seq<Record>, right: seq<Record>, lkey: Record -> K, rkey: Record -> K): seq<(Record, Record)> {
    if left == [] then []
    else NestedLoop(left[..|left| - 1], right, lkey, rkey) + MatchesOf(left[|left| - 1], right, lkey, rkey)
  }

  /** How often a pair must come out: once for every pair of occurrences. */
  function Pairs<K(==)>(left: seq<Record>, right: seq<Record>, lkey: Record -> K, rkey: Record -> K, l: Record, r: Record): nat {
    if lkey(l) == rkey(r) then multiset(left)[l] * multiset(right)[r] else 0
  }

  lemma {:induction false} MatchesCount<K>(x: Record, right: seq<Record>, lkey: Record -> K, rkey: Record -> K, l: Record, r: Record)
    ensures multiset(MatchesOf(x, right, lkey, rkey))[(l, r)] == if x == l && lkey(l) == rkey(r) then multiset(right)[r] else 0
  {
    if right != [] {
      MatchesCount(x, right[..|right| - 1], lkey, rkey, l, r);
      BagLast(right);
    }
  }

  lemma {:induction false} NestedLoopCount<K>(left: seq<Record>, right: seq<Record>, lkey: Record -> K, rkey: Record -> K, l: Record, r: Record)
    ensures multiset(NestedLoop(left, right, lkey, rkey))[(l, r)] == Pairs(left, right, lkey, rkey, l, r)
  {
    if left != [] {
      NestedLoopCount(left[..|left| - 1], right, lkey, rkey, l, r);
      MatchesCount(left[|left| - 1], right, lkey, rkey, l, r);
      BagLast(left);
      TimesStep(multiset(left[..|left| - 1])[l], multiset(right)[r]);
    }
  }

  lemma TimesStep(x: nat, y: nat)
    ensures (x + 1) * y == x * y + y
  {
  }

  /** The output is the join of the two inputs, as a bag. */
  ghost predicate Joins<K>(out: seq<(Record, Record)>, left: seq<Record>, right: seq<Record>, lkey: Record -> K, rkey: Record -> K) {
    forall l, r {:trigger multiset(out)[(l, r)]} :: multiset(out)[(l, r)] == Pairs(left, right, lkey, rkey, l, r)
  }

  lemma JoinsIsNestedLoop<K>(out: seq<(Record, Record)>, left: seq<Record>, right: seq<Record>, lkey: Record -> K, rkey: Record -> K)
    requires Joins(out, left, right, lkey, rkey)
    ensures multiset(out) == multiset(NestedLoop(left, right, lkey, rkey))
  {
    hide Pairs, NestedLoop;
    forall p: (Record, Record)
      ensures multiset(out)[p] == multiset(NestedLoop(left, right, lkey, rkey))[p]
    {
      NestedLoopCount(left, right, lkey, rkey, p.0, p.1);
      assert multiset(out)[(p.0, p.1)] == Pairs(left, right, lkey, rkey, p.0, p.1);
    }
  }

  function Lookup<K>(table: map<K, seq<Record>>, k: K): seq<Record> {
    if k in table then table[k] else []
  }

  /** The table lists under each key the records that have it. */
  ghost predicate IsTable<K(!new)>(table: map<K, seq<Record>>, rs: seq<Record>, key: Record -> K) {
    forall k, r {:trigger multiset(Lookup(table, k))[r]} ::
      multiset(Lookup(table, k))[r] == if key(r) == k then multiset(rs)[r] else 0
  }

  /** What may be held in memory: a single record, or as many bytes as the limit says. */
  ghost predicate InMemory(rs: seq<Record>, limit: nat) {
    |rs| == 1 || |Flatten(rs)| + 4 * |rs| <= limit
  }

  /** The build side by key; only what fits the memory limit is ever built. */
  method BuildTable<K(==, !new)>(rs: seq<Record>, key: Record -> K, ghost limit: nat) returns (table: map<K, seq<Record>>)
    requires InMemory(rs, limit)
    ensures IsTable(table, rs, key)
  {
    table := map[];
    assert rs[..0] == [];
    for n := 0 to |rs|
      invariant IsTable(table, rs[..n], key)
    {
      var k := key(rs[n]);
      TableStep(table, rs, n, key);
      table := table[k := Lookup(table, k) + [rs[n]]];
    }
    WholePrefix(rs);
  }

  lemma TableStep<K(!new)>(table: map<K, seq<Record>>, rs: seq<Record>, n: nat, key: Record -> K)
    requires n < |rs| && IsTable(table, rs[..n], key)
    ensures var k := key(rs[n]); IsTable(table[k := Lookup(table, k) + [rs[n]]], rs[..n + 1], key)
  {
    var k := key(rs[n]);
    var after := table[k := Lookup(table, k) + [rs[n]]];
    BagPrefix(rs, n);
    BagPush(Lookup(table, k), rs[n]);
    forall x: K, r: Record
      ensures multiset(Lookup(after, x))[r] == if key(r) == x then multiset(rs[..n + 1])[r] else 0
    {
      assert multiset(Lookup(table, x))[r] == if key(r) == x then multiset(rs[..n])[r] else 0;
    }
  }

  /** Probe the table of the build side; the pair is always (left, right). */
  method HashJoin<K(==, !new)>(build: seq<Record>, probe: seq<Record>, bkey: Record -> K, pkey: Record -> K, buildLeft: bool, ghost limit: nat)
    returns (out: seq<(Record, Record)>)
    requires InMemory(build, limit)
    ensures buildLeft ==> Joins(out, build, probe, bkey, pkey)
    ensures !buildLeft ==> Joins(out, probe, build, pkey, bkey)
  {
    hide OneProbe, InMemory;
    var table := BuildTable(build, bkey, limit);
    out := [];
    assert probe[..0] == [];
    assert JoinsSide(out, build, probe[..0], bkey, pkey, buildLeft);
    hide JoinsSide, Joins, Pairs;
    for n := 0 to |probe|
      invariant JoinsSide(out, build, probe[..n], bkey, pkey, buildLeft)
    {
      var found := Lookup(table, pkey(probe[n]));
      FoundAre(table, build, bkey, pkey(probe[n]));
      var more := ProbeOne(found, probe[n], buildLeft);
      ProbeStep(out, more, build, probe, found, n, bkey, pkey, buildLeft);
      out := out + more;
    }
    WholePrefix(probe);
    SideIsJoin(out, build, probe, bkey, pkey, buildLeft);
  }

  lemma FoundAre<K(!new)>(table: map<K, seq<Record>>, build: seq<Record>, bkey: Record -> K, k: K)
    requires IsTable(table, build, bkey)
    ensures forall r :: multiset(Lookup(table, k))[r] == if bkey(r) == k then multiset(build)[r] else 0
  {
  }

  method ProbeOne(found: seq<Record>, x: Record, buildLeft: bool) returns (more: seq<(Record, Record)>)
    ensures OneProbe(more, found, x, buildLeft)
  {
    more := [];
    assert found[..0] == [];
    for m := 0 to |found|
      invariant OneProbe(more, found[..m], x, buildLeft)
    {
      BagPrefix(found, m);
      var pair := if buildLeft then (found[m], x) else (x, found[m]);
      BagPush(more, pair);
      more := more + [pair];
    }
    WholePrefix(found);
  }

  /** The pairs of one probe record. */
  ghost predicate OneProbe(more: seq<(Record, Record)>, found: seq<Record>, x: Record, buildLeft: bool) {
    forall l, r {:trigger multiset(more)[(l, r)]} :: multiset(more)[(l, r)] ==
      if buildLeft then (if r == x then multiset(found)[l] else 0) else (if l == x then multiset(found)[r] else 0)
  }

  ghost predicate JoinsSide<K>(out: seq<(Record, Record)>, build: seq<Record>, probe: seq<Record>, bkey: Record -> K, pkey: Record -> K, buildLeft: bool) {
    forall l, r {:trigger multiset(out)[(l, r)]} :: multiset(out)[(l, r)] ==
      if buildLeft then Pairs(build, probe, bkey, pkey, l, r) else Pairs(build, probe, bkey, pkey, r, l)
  }

  lemma SideIsJoin<K>(out: seq<(Record, Record)>, build: seq<Record>, probe: seq<Record>, bkey: Record -> K, pkey: Record -> K, buildLeft: bool)
    requires JoinsSide(out, build, probe, bkey, pkey, buildLeft)
    ensures buildLeft ==> Joins(out, build, probe, bkey, pkey)
    ensures !buildLeft ==> Joins(out, probe, build, pkey, bkey)
  {
    forall l, r
      ensures Pairs(build, probe, bkey, pkey, r, l) == Pairs(probe, build, pkey, bkey, l, r)
    {
      TimesCommute(multiset(build)[r], multiset(probe)[l]);
    }
  }

  lemma TimesCommute(x: nat, y: nat)
    ensures x * y == y * x
  {
  }

  lemma ProbeStep<K>(out: seq<(Record, Record)>, more: seq<(Record, Record)>, build: seq<Record>, probe: seq<Record>, found: seq<Record>, n: nat,
                         bkey: Record -> K, pkey: Record -> K, buildLeft: bool)
    requires n < |probe| && JoinsSide(out, build, probe[..n], bkey, pkey, buildLeft)
    requires forall r :: multiset(found)[r] == if bkey(r) == pkey(probe[n]) then multiset(build)[r] else 0
    requires OneProbe(more, found, probe[n], buildLeft)
    ensures JoinsSide(out + more, build, probe[..n + 1], bkey, pkey, buildLeft)
  {
    BagPrefix(probe, n);
    forall l, r
      ensures multiset(out + more)[(l, r)] ==
              if buildLeft then Pairs(build, probe[..n + 1], bkey, pkey, l, r) else Pairs(build, probe[..n + 1], bkey, pkey, r, l)
    {
      assert multiset(out + more)[(l, r)] == multiset(out)[(l, r)] + multiset(more)[(l, r)];
      var b, x := if buildLeft then l else r, if buildLeft then r else l;
      TimesStep(multiset(probe[..n])[x], multiset(build)[b]);
      TimesCommute(multiset(probe[..n])[x], multiset(build)[b]);
      TimesCommute(multiset(probe[..n])[x] + 1, multiset(build)[b]);
    }
  }

  // ----- block join -----

  method RecordChunks(rs: seq<Record>, limit: nat) returns (chunks: seq<seq<Record>>)
    requires limit > 0
    ensures Flatten(chunks) == rs
    ensures forall c: seq<Record> :: c in chunks ==> c != [] && InMemory(c, limit)
  {
    chunks := [];
    var chunk: seq<Record>, used: nat := [], 0;
    NoChunks(rs, SerializedSize, limit);
    hide Chunking, Flatten, TotalSize, ChunkOk, ChunksOk;
    for n := 0 to |rs|
      invariant Chunking(chunks, chunk, used, rs, n, SerializedSize, limit)
    {
      var size := SerializedSize(rs[n]);
      if chunk != [] && used + size > limit {
        ChunkDone(chunks, chunk, used, rs, n, SerializedSize, limit);
        chunks, chunk, used := chunks + [chunk], [], 0;
      }
      ChunkGrows(chunks, chunk, used, rs, n, SerializedSize, limit);
      chunk, used := chunk + [rs[n]], used + size;
      if used >= limit {
        ChunkDone(chunks, chunk, used, rs, n + 1, SerializedSize, limit);
        chunks, chunk, used := chunks + [chunk], [], 0;
      }
    }
    if chunk != [] {
      ChunkDone(chunks, chunk, used, rs, |rs|, SerializedSize, limit);
      chunks, chunk, used := chunks + [chunk], [], 0;
    }
    ChunkedAll(chunks, used, rs, SerializedSize, limit);
    ChunkBytes(chunks, limit);
  }

  lemma ChunkBytes(chunks: seq<seq<Record>>, limit: nat)
    requires ChunksOk(chunks, SerializedSize, limit)
    ensures forall c: seq<Record> :: c in chunks ==> c != [] && InMemory(c, limit)
  {
    forall c: seq<Record> | c in chunks
      ensures c != [] && InMemory(c, limit)
    {
      var i :| 0 <= i < |chunks| && chunks[i] == c;
      FileBytes(c);
    }
  }

  method BlockHashJoin<K(==, !new)>(left: seq<Record>, right: seq<Record>, lkey: Record -> K, rkey: Record -> K, limit: nat)
    returns (out: seq<(Record, Record)>)
    requires limit > 0
    ensures Joins(out, left, right, lkey, rkey)
  {
    hide Pairs;
    var buildLeft := FileSize(left) <= FileSize(right);
    var chunks := RecordChunks(if buildLeft then left else right, limit);
    out := [];
    JoinNothing(left, right, lkey, rkey);
    for i := 0 to |chunks|
      invariant buildLeft ==> Joins(out, Flatten(chunks[..i]), right, lkey, rkey)
      invariant !buildLeft ==> Joins(out, left, Flatten(chunks[..i]), lkey, rkey)
    {
      assert chunks[..i + 1] == chunks[..i] + [chunks[i]];
      FlattenAppend(chunks[..i], chunks[i]);
      assert chunks[i] in chunks;
      var more;
      if buildLeft {
        more := HashJoin(chunks[i], right, lkey, rkey, true, limit);
        JoinMoreLeft(out, more, Flatten(chunks[..i]), chunks[i], right, lkey, rkey);
      } else {
        more := HashJoin(chunks[i], left, rkey, lkey, false, limit);
        JoinMoreRight(out, more, left, Flatten(chunks[..i]), chunks[i], lkey, rkey);
      }
      out := out + more;
    }
    assert chunks[..|chunks|] == chunks;
  }

  lemma JoinNothing<K>(left: seq<Record>, right: seq<Record>, lkey: Record -> K, rkey: Record -> K)
    ensures Joins([], [], right, lkey, rkey) && Joins([], left, [], lkey, rkey)
  {
  }

  lemma Distribute(x: nat, y: nat, z: nat)
    ensures (x + y) * z == x * z + y * z && z * (x + y) == z * x + z * y
  {
  }

  lemma JoinMoreLeft<K>(out: seq<(Record, Record)>, more: seq<(Record, Record)>, a: seq<Record>, b: seq<Record>, right: seq<Record>,
                            lkey: Record -> K, rkey: Record -> K)
    requires Joins(out, a, right, lkey, rkey) && Joins(more, b, right, lkey, rkey)
    ensures Joins(out + more, a + b, right, lkey, rkey)
  {
    forall l, r
      ensures multiset(out + more)[(l, r)] == Pairs(a + b, right, lkey, rkey, l, r)
    {
      assert multiset(out + more)[(l, r)] == multiset(out)[(l, r)] + multiset(more)[(l, r)];
      Distribute(multiset(a)[l], multiset(b)[l], multiset(right)[r]);
    }
  }

  lemma JoinMoreRight<K>(out: seq<(Record, Record)>, more: seq<(Record, Record)>, left: seq<Record>, a: seq<Record>, b: seq<Record>,
                             lkey: Record -> K, rkey: Record -> K)
    requires Joins(out, left, a, lkey, rkey) && Joins(more, left, b, lkey, rkey)
    ensures Joins(out + more, left, a + b, lkey, rkey)
  {
    forall l, r
      ensures multiset(out + more)[(l, r)] == Pairs(left, a + b, lkey, rkey, l, r)
    {
      assert multiset(out + more)[(l, r)] == multiset(out)[(l, r)] + multiset(more)[(l, r)];
      Distribute(multiset(a)[r], multiset(b)[r], multiset(left)[l]);
    }
  }

  // ----- recursive join -----

  method JoinPartition<K(==, !new)>(p: Plan<K>, left: seq<Record>, right: seq<Record>, lkey: Record -> K, rkey: Record -> K, level: nat)
    returns (out: seq<(Record, Record)>)
    requires p.partitionCount > 0 && p.memoryLimit > 0
    ensures Joins(out, left, right, lkey, rkey)
    decreases p.maxDepth + 1 - level, 0
  {
    hide Pairs;
    FileSizeZero(left);
    FileSizeZero(right);
    if FileSize(left) == 0 || FileSize(right) == 0 {
      JoinNothing(left, right, lkey, rkey);
      return [];
    }
    var smaller := if FileSize(left) <= FileSize(right) then FileSize(left) else FileSize(right);
    if smaller <= p.memoryLimit {
      if FileSize(left) <= FileSize(right) {
        FileBytes(left);
        out := HashJoin(left, right, lkey, rkey, true, p.memoryLimit);
      } else {
        FileBytes(right);
        out := HashJoin(right, left, rkey, lkey, false, p.memoryLimit);
      }
      return;
    }
    if level <= p.maxDepth {
      out := JoinParts(p, left, right, lkey, rkey, level);
      return;
    }
    out := BlockHashJoin(left, right, lkey, rkey, p.memoryLimit);
  }

  lemma FileSizeZero(rs: seq<Record>)
    ensures FileSize(rs) == 0 <==> rs == []
  {
  }

  /** The pairs whose key belongs to one of the first n partitions. */
  ghost predicate JoinsUpTo<K>(p: Plan<K>, out: seq<(Record, Record)>, left: seq<Record>, right: seq<Record>, lkey: Record -> K, rkey: Record -> K,
                                   level: nat, n: nat)
    requires p.partitionCount > 0
  {
    forall l, r {:trigger multiset(out)[(l, r)]} :: multiset(out)[(l, r)] ==
      if PartitionIndex(p, lkey(l), level) < n then Pairs(left, right, lkey, rkey, l, r) else 0
  }

  method JoinParts<K(==, !new)>(p: Plan<K>, left: seq<Record>, right: seq<Record>, lkey: Record -> K, rkey: Record -> K, level: nat)
    returns (out: seq<(Record, Record)>)
    requires p.partitionCount > 0 && p.memoryLimit > 0 && level <= p.maxDepth
    ensures Joins(out, left, right, lkey, rkey)
    decreases p.maxDepth - level, 1
  {
    hide Pairs, PartitionIndex, Part;
    var lefts := PartitionRecords(p, lkey, left, level);
    var rights := PartitionRecords(p, rkey, right, level);
    out := [];
    for n := 0 to p.partitionCount
      invariant JoinsUpTo(p, out, left, right, lkey, rkey, level, n)
    {
      var more := JoinPartition(p, lefts[n], rights[n], lkey, rkey, level + 1);
      JoinOneMore(p, out, more, left, right, lkey, rkey, level, n);
      out := out + more;
    }
    JoinedAll(p, out, left, right, lkey, rkey, level);
  }

  lemma JoinedAll<K>(p: Plan<K>, out: seq<(Record, Record)>, left: seq<Record>, right: seq<Record>, lkey: Record -> K, rkey: Record -> K, level: nat)
    requires p.partitionCount > 0 && JoinsUpTo(p, out, left, right, lkey, rkey, level, p.partitionCount)
    ensures Joins(out, left, right, lkey, rkey)
  {
  }

  /** Records with equal keys meet in the same partition, and only there. */
  lemma JoinOneMore<K>(p: Plan<K>, out: seq<(Record, Record)>, more: seq<(Record, Record)>, left: seq<Record>, right: seq<Record>,
                           lkey: Record -> K, rkey: Record -> K, level: nat, n: nat)
    requires p.partitionCount > 0 && JoinsUpTo(p, out, left, right, lkey, rkey, level, n)
    requires Joins(more, Part(p, lkey, left, level, n), Part(p, rkey, right, level, n), lkey, rkey)
    ensures JoinsUpTo(p, out + more, left, right, lkey, rkey, level, n + 1)
  {
    hide PartitionIndex, Part;
    forall l, r
      ensures multiset(out + more)[(l, r)] ==
              if PartitionIndex(p, lkey(l), level) < n + 1 then Pairs(left, right, lkey, rkey, l, r) else 0
    {
      assert multiset(out + more)[(l, r)] == multiset(out)[(l, r)] + multiset(more)[(l, r)];
      PartCount(p, lkey, left, level, n, l);
      PartCount(p, rkey, right, level, n, r);
    }
  }

  /** Exactly the pairs of the nested-loop join, as a bag, whatever the limits are. */
  method ExternalHashJoin<K(==, !new)>(left: seq<Record>, right: seq<Record>, lkey: Record -> K, rkey: Record -> K, hash: (K, nat) -> nat,
                                 memoryLimit: int, partitionCount: int, maxDepth: int)
    returns (out: Option<seq<(Record, Record)>>)
    ensures out.None? <==> memoryLimit <= 0 || partitionCount <= 1 || maxDepth < 0
    ensures out.Some? ==> forall l, r {:trigger multiset(out.value)[(l, r)]} ::
              multiset(out.value)[(l, r)] == if lkey(l) == rkey(r) then multiset(left)[l] * multiset(right)[r] else 0
    ensures out.Some? ==> multiset(out.value) == multiset(NestedLoop(left, right, lkey, rkey))
  {
    if !ValidParameters(memoryLimit, partitionCount, maxDepth) {
      return None;
    }
    var p: Plan<K> := Plan(hash, partitionCount, memoryLimit, maxDepth);
    var pairs := JoinParts(p, left, right, lkey, rkey, 0);
    JoinsIsNestedLoop(pairs, left, right, lkey, rkey);
    out := Some(pairs);
  }
}
