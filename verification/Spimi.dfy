/**
 Single-pass in-memory indexing: blocks spilled as sorted runs and merged into an inverted
 index (plugins/soupdb-inverted/soupdb_inverted/spimi.py, merge.py).
 */
module Spimi {
  import opened Common
  import opened Sequences
  import opened ExternalSort

  /** Terms are any totally ordered values; every countable order embeds in the reals. */
  type Term = real

  datatype Posting = Posting(term: Term, doc: nat, tf: nat)

  datatype Document = Document(tokens: seq<Term>, rid: RID)

  type Block = map<Term, map<nat, nat>>

  predicate NotBehind(a: Posting, b: Posting) {
    a.term < b.term || (a.term == b.term && a.doc <= b.doc)
  }

  function PostingOrder(): (Posting, Posting) -> bool {
    (a: Posting, b: Posting) => NotBehind(a, b)
  }

  lemma PostingOrderIsTotal()
    ensures TotalPreorder(PostingOrder())
  {
  }

  // ----- the index that documents have -----

  /** How often the term occurs in the document: what the index must say. */
  function Frequency(docs: seq<Document>, t: Term, d: nat): nat {
    if d < |docs| then multiset(docs[d].tokens)[t] else 0
  }

  predicate Correct(docs: seq<Document>, x: Posting) {
    x.tf > 0 && x.tf == Frequency(docs, x.term, x.doc)
  }

  /** The runs hold every posting of the documents exactly once, and nothing else. */
  ghost predicate RunsOf(runs: seq<seq<Posting>>, docs: seq<Document>) {
    forall x {:trigger Bag(runs)[x]} :: Bag(runs)[x] == if Correct(docs, x) then 1 else 0
  }

  // ----- counting one document -----

  method CountTerms(tokens: seq<Term>) returns (order: seq<Term>, counts: map<Term, nat>)
    ensures forall t :: t in order <==> t in tokens
    ensures forall i, j :: 0 <= i < j < |order| ==> order[i] != order[j]
    ensures forall t :: t in counts <==> t in order
    ensures forall t :: t in counts ==> counts[t] == multiset(tokens)[t]
  {
    order, counts := [], map[];
    for n := 0 to |tokens|
      invariant forall t :: t in order <==> t in tokens[..n]
      invariant forall i, j :: 0 <= i < j < |order| ==> order[i] != order[j]
      invariant forall t :: t in counts <==> t in order
      invariant forall t :: t in counts ==> counts[t] == multiset(tokens[..n])[t]
    {
      BagPrefix(tokens, n);
      var t := tokens[n];
      if t !in counts {
        order := order + [t];
        assert t !in multiset(tokens[..n]);
        counts := counts[t := 1];
      } else {
        counts := counts[t := counts[t] + 1];
      }
    }
    assert tokens[..|tokens|] == tokens;
  }

  // ----- spilling a block -----

  predicate BlockHas(block: Block, x: Posting) {
    x.term in block && x.doc in block[x.term] && block[x.term][x.doc] == x.tf
  }

  predicate StrictlyBefore(a: Posting, b: Posting) {
    a.term < b.term || (a.term == b.term && a.doc < b.doc)
  }

  ghost predicate StrictlyAscending(s: seq<Posting>) {
    forall i, j :: 0 <= i < j < |s| ==> StrictlyBefore(s[i], s[j])
  }

  ghost predicate StrictOrder<T(!new)>(less: (T, T) -> bool) {
    && (forall a, b :: a != b ==> less(a, b) || less(b, a))
    && (forall a, b :: less(a, b) ==> !less(b, a))
    && (forall a, b, c :: less(a, b) && less(b, c) ==> less(a, c))
  }

  function TermLess(): (Term, Term) -> bool {
    (a: Term, b: Term) => a < b
  }

  function DocLess(): (nat, nat) -> bool {
    (a: nat, b: nat) => a < b
  }

  lemma OrdersAreStrict()
    ensures StrictOrder(TermLess()) && StrictOrder(DocLess())
    ensures forall a, b :: TermLess()(a, b) <==> a < b
    ensures forall a, b :: DocLess()(a, b) <==> a < b
  {
  }

  /** A set in ascending order. */
  method SortedKeys<T(==, !new)>(keys: set<T>, less: (T, T) -> bool) returns (order: seq<T>)
    requires StrictOrder(less)
    ensures forall k :: k in order <==> k in keys
    ensures forall i, j :: 0 <= i < j < |order| ==> less(order[i], order[j])
  {
    order := [];
    var todo := keys;
    while todo != {}
      invariant todo <= keys && forall k :: k in order <==> k in keys && k !in todo
      invariant forall i, j :: 0 <= i < j < |order| ==> less(order[i], order[j])
      invariant forall k, l :: k in order && l in todo ==> less(k, l)
      decreases todo
    {
      var least := Least(todo, less);
      assert forall i :: 0 <= i < |order| ==> order[i] in order;
      order := order + [least];
      todo := todo - {least};
    }
  }

  method Least<T(==, !new)>(keys: set<T>, less: (T, T) -> bool) returns (least: T)
    requires StrictOrder(less) && keys != {}
    ensures least in keys && forall k :: k in keys && k != least ==> less(least, k)
  {
    var start :| start in keys;
    least := start;
    var todo := keys - {least};
    while todo != {}
      invariant todo <= keys && least in keys && forall k :: k in keys && k !in todo && k != least ==> less(least, k)
      invariant least !in todo
      decreases todo
    {
      var k :| k in todo;
      todo := todo - {k};
      if less(k, least) {
        least := k;
      }
    }
  }

  /** The block as one run: terms ascending, documents ascending within a term. */
  method SpillBlock(block: Block) returns (run: seq<Posting>)
    ensures StrictlyAscending(run)
    ensures forall x :: x in run <==> BlockHas(block, x)
  {
    run := [];
    OrdersAreStrict();
    var terms := SortedKeys(block.Keys, TermLess());
    for i := 0 to |terms|
      invariant StrictlyAscending(run)
      invariant forall x :: x in run <==> BlockHas(block, x) && x.term in terms[..i]
    {
      assert terms[i] in terms;
      assert forall t :: t in terms[..i + 1] <==> t in terms[..i] || t == terms[i];
      forall x | x in run
        ensures x.term < terms[i]
      {
        var j :| 0 <= j < i && terms[..i][j] == x.term;
        assert terms[j] < terms[i];
      }
      run := SpillTerm(terms[i], block[terms[i]], run);
    }
    assert terms[..|terms|] == terms;
  }

  method SpillTerm(t: Term, postings: map<nat, nat>, before: seq<Posting>) returns (run: seq<Posting>)
    requires StrictlyAscending(before) && forall x :: x in before ==> x.term < t
    ensures StrictlyAscending(run)
    ensures forall x :: x in run <==> x in before || (x.term == t && x.doc in postings && postings[x.doc] == x.tf)
  {
    run := before;
    OrdersAreStrict();
    var docs := SortedKeys(postings.Keys, DocLess());
    for j := 0 to |docs|
      invariant StrictlyAscending(run)
      invariant forall x :: x in run <==> x in before || (x.term == t && x.doc in postings && postings[x.doc] == x.tf && x.doc in docs[..j])
    {
      assert docs[j] in docs;
      assert forall d :: d in docs[..j + 1] <==> d in docs[..j] || d == docs[j];
      var x := Posting(t, docs[j], postings[docs[j]]);
      forall i | 0 <= i < |run|
        ensures StrictlyBefore(run[i], x)
      {
        assert run[i] in run;
        if run[i] !in before {
          var l :| 0 <= l < j && docs[..j][l] == run[i].doc;
          assert docs[l] < docs[j];
        }
      }
      run := run + [x];
    }
    assert docs[..|docs|] == docs;
  }

  lemma {:induction false} AscendingOnce(s: seq<Posting>, x: Posting)
    requires StrictlyAscending(s)
    ensures multiset(s)[x] == if x in s then 1 else 0
  {
    if s != [] {
      AscendingOnce(s[..|s| - 1], x);
      BagLast(s);
      forall i | 0 <= i < |s| - 1
        ensures s[i] != s[|s| - 1]
      {
        assert StrictlyBefore(s[i], s[|s| - 1]);
      }
    }
  }

  // ----- building the runs -----

  /** What has been counted so far: all documents before d, and of document d the terms in `seen`. */
  predicate Counted(docs: seq<Document>, d: nat, seen: set<Term>, x: Posting) {
    Correct(docs, x) && (x.doc < d || (x.doc == d && x.term in seen))
  }

  /** Each counted posting is in the runs or in the block, once. */
  ghost predicate Building(runs: seq<seq<Posting>>, block: Block, docs: seq<Document>, d: nat, seen: set<Term>) {
    && AllSorted(runs, PostingOrder())
    && forall x {:trigger BlockHas(block, x)} {:trigger Bag(runs)[x]} ::
         Bag(runs)[x] + (if BlockHas(block, x) then 1 else 0) == if Counted(docs, d, seen, x) then 1 else 0
  }

  lemma FlushStep(runs: seq<seq<Posting>>, block: Block, docs: seq<Document>, d: nat, seen: set<Term>, run: seq<Posting>)
    requires Building(runs, block, docs, d, seen) && StrictlyAscending(run)
    requires forall x :: x in run <==> BlockHas(block, x)
    ensures Building(runs + [run], map[], docs, d, seen)
  {
    hide Bag, Counted;
    BagAppend(runs, run);
    forall x
      ensures Bag(runs + [run])[x] == if Counted(docs, d, seen, x) then 1 else 0
    {
      AscendingOnce(run, x);
      assert Bag(runs)[x] + (if BlockHas(block, x) then 1 else 0) == if Counted(docs, d, seen, x) then 1 else 0;
    }
    hide StrictlyAscending;
    RunIsSorted(run);
  }

  lemma RunIsSorted(run: seq<Posting>)
    requires StrictlyAscending(run)
    ensures SortedBy(run, PostingOrder())
  {
    forall i, j | 0 <= i < j < |run|
      ensures PostingOrder()(run[i], run[j])
    {
      assert StrictlyBefore(run[i], run[j]);
    }
  }

  function Put(block: Block, t: Term, d: nat, tf: nat): Block {
    block[t := (if t in block then block[t] else map[])[d := tf]]
  }

  lemma PutStep(runs: seq<seq<Posting>>, block: Block, docs: seq<Document>, d: nat, seen: set<Term>, t: Term, tf: nat)
    requires Building(runs, block, docs, d, seen) && t !in seen && Correct(docs, Posting(t, d, tf))
    ensures Building(runs, Put(block, t, d, tf), docs, d, seen + {t})
  {
    hide Bag;
    var y := Posting(t, d, tf);
    forall x
      ensures Bag(runs)[x] + (if BlockHas(Put(block, t, d, tf), x) then 1 else 0) == if Counted(docs, d, seen + {t}, x) then 1 else 0
    {
      assert Bag(runs)[x] + (if BlockHas(block, x) then 1 else 0) == if Counted(docs, d, seen, x) then 1 else 0;
    }
  }

  lemma NextDocument(runs: seq<seq<Posting>>, block: Block, docs: seq<Document>, d: nat, seen: set<Term>)
    requires d < |docs| && Building(runs, block, docs, d, seen) && forall t :: t in docs[d].tokens <==> t in seen
    ensures Building(runs, block, docs, d + 1, {})
  {
    forall x
      ensures Counted(docs, d, seen, x) == Counted(docs, d + 1, {}, x)
    {
      if x.doc == d && Correct(docs, x) {
        assert x.term in multiset(docs[d].tokens);
      }
    }
  }

  predicate ValidRid(r: RID) {
    r.pageId >= 0 && r.slot >= 0
  }

  ghost predicate ValidDocuments(docs: seq<Document>) {
    && (forall d :: 0 <= d < |docs| ==> ValidRid(docs[d].rid))
    && (forall d, e :: 0 <= d < e < |docs| ==> docs[d].rid != docs[e].rid)
  }

  // ----- the memory budget -----

  ghost predicate HasTerm(puts: seq<Posting>, t: Term) {
    exists i :: 0 <= i < |puts| && puts[i].term == t
  }

  /** What the postings of a block are estimated to take: 96 bytes each, and 64 and its own bytes for each term. */
  ghost function Estimate(puts: seq<Posting>, termBytes: Term -> nat): nat {
    if puts == [] then 0
    else
      var front, t := puts[..|puts| - 1], puts[|puts| - 1].term;
      Estimate(front, termBytes) + 96 + if HasTerm(front, t) then 0 else 64 + termBytes(t)
  }

  /** The postings of a block, in the order they were put there. */
  ghost predicate PutsOf(block: Block, puts: seq<Posting>) {
    && (forall x :: x in puts <==> BlockHas(block, x)) && (forall i, j :: 0 <= i < j < |puts| ==> puts[i] != puts[j])
    && (forall t :: t in block <==> HasTerm(puts, t))
  }

  /** No block took more than the budget, unless it was a single posting. */
  ghost predicate Within(puts: seq<Posting>, termBytes: Term -> nat, limit: nat) {
    puts != [] && (|puts| == 1 || Estimate(puts, termBytes) <= limit)
  }

  /** A block is only spilled when it is at the limit or the next posting would take it beyond. */
  ghost predicate Full(puts: seq<Posting>, more: seq<Posting>, termBytes: Term -> nat, limit: nat) {
    Estimate(puts, termBytes) >= limit || (more != [] && Estimate(puts + [more[0]], termBytes) > limit)
  }

  ghost predicate FullAt(blocks: seq<seq<Posting>>, puts: seq<Posting>, k: nat, termBytes: Term -> nat, limit: nat) {
    k < |blocks| && Full(blocks[k], if k + 1 < |blocks| then blocks[k + 1] else puts, termBytes, limit)
  }

  /** The blocks that became the runs, and the one being filled. */
  ghost predicate Budgeted(blocks: seq<seq<Posting>>, puts: seq<Posting>, runs: seq<seq<Posting>>, termBytes: Term -> nat, limit: nat) {
    && |blocks| == |runs| && (forall k :: 0 <= k < |runs| ==> multiset(blocks[k]) == multiset(runs[k]))
    && (forall k :: 0 <= k < |blocks| ==> Within(blocks[k], termBytes, limit))
    && (forall k :: 0 <= k < |blocks| ==> FullAt(blocks, puts, k, termBytes, limit))
  }

  /** Each run is a block within the budget, and no block but the last could have taken one posting more. */
  ghost predicate InBudget(blocks: seq<seq<Posting>>, runs: seq<seq<Posting>>, termBytes: Term -> nat, limit: nat) {
    && |blocks| == |runs| && (forall k :: 0 <= k < |runs| ==> multiset(blocks[k]) == multiset(runs[k]))
    && (forall k :: 0 <= k < |blocks| ==> Within(blocks[k], termBytes, limit))
    && (forall k {:trigger blocks[k]} :: 0 <= k < |blocks| - 1 ==> Full(blocks[k], blocks[k + 1], termBytes, limit))
  }

  lemma EstimateMore(puts: seq<Posting>, x: Posting, termBytes: Term -> nat)
    ensures Estimate(puts + [x], termBytes) == Estimate(puts, termBytes) + 96 + if HasTerm(puts, x.term) then 0 else 64 + termBytes(x.term)
  {
    assert (puts + [x])[..|puts|] == puts;
  }

  lemma HasTermMore(puts: seq<Posting>, x: Posting, t: Term)
    ensures HasTerm(puts + [x], t) <==> HasTerm(puts, t) || t == x.term
  {
    if HasTerm(puts, t) {
      var i :| 0 <= i < |puts| && puts[i].term == t;
      assert (puts + [x])[i].term == t;
    }
    if t == x.term {
      assert (puts + [x])[|puts|].term == t;
    }
  }

  lemma PutMore(block: Block, puts: seq<Posting>, t: Term, d: nat, tf: nat)
    requires PutsOf(block, puts) && forall v :: !BlockHas(block, Posting(t, d, v))
    ensures PutsOf(Put(block, t, d, tf), puts + [Posting(t, d, tf)])
  {
    hide HasTerm;
    var x := Posting(t, d, tf);
    forall u
      ensures u in Put(block, t, d, tf) <==> HasTerm(puts + [x], u)
    {
      HasTermMore(puts, x, u);
    }
    forall y
      ensures y in puts + [x] <==> BlockHas(Put(block, t, d, tf), y)
    {
      assert y in puts <==> BlockHas(block, y);
    }
    assert x !in puts;
  }

  lemma NothingPut()
    ensures PutsOf(map[], [])
  {
  }

  lemma EmptyBlock(block: Block, puts: seq<Posting>)
    requires PutsOf(block, puts)
    ensures block == map[] <==> puts == []
  {
    if puts == [] {
      assert forall t :: t !in block;
    } else {
      assert HasTerm(puts, puts[0].term);
    }
  }

  lemma {:induction false} DistinctOnce(s: seq<Posting>, x: Posting)
    requires forall i, j :: 0 <= i < j < |s| ==> s[i] != s[j]
    ensures multiset(s)[x] == if x in s then 1 else 0
  {
    if s != [] {
      DistinctOnce(s[..|s| - 1], x);
      BagLast(s);
      assert x in s <==> x in s[..|s| - 1] || x == s[|s| - 1];
    }
  }

  lemma RunIsBlock(block: Block, puts: seq<Posting>, run: seq<Posting>)
    requires PutsOf(block, puts) && StrictlyAscending(run) && forall x :: x in run <==> BlockHas(block, x)
    ensures multiset(run) == multiset(puts)
  {
    hide BlockHas, StrictlyAscending, HasTerm;
    forall x
      ensures multiset(run)[x] == multiset(puts)[x]
    {
      AscendingOnce(run, x);
      DistinctOnce(puts, x);
      assert x in puts <==> x in run;
    }
  }

  /** The block goes: it was within the budget, and full. */
  lemma Spilled(blocks: seq<seq<Posting>>, puts: seq<Posting>, runs: seq<seq<Posting>>, runs': seq<seq<Posting>>, more: seq<Posting>,
                termBytes: Term -> nat, limit: nat)
    requires Budgeted(blocks, puts, runs, termBytes, limit) && Within(puts, termBytes, limit) && Full(puts, more, termBytes, limit)
    requires |runs'| == |runs| + 1 && runs'[..|runs|] == runs && multiset(runs'[|runs|]) == multiset(puts)
    ensures Budgeted(blocks + [puts], more, runs', termBytes, limit)
  {
    hide Within;
    var all := blocks + [puts];
    forall k | 0 <= k < |all|
      ensures FullAt(all, more, k, termBytes, limit) && multiset(all[k]) == multiset(runs'[k])
    {
      if k < |blocks| {
        assert FullAt(blocks, puts, k, termBytes, limit);
        assert runs'[k] == runs[k];
      }
    }
  }

  /** One posting more in the block does not make an earlier block less full. */
  lemma StillFull(blocks: seq<seq<Posting>>, puts: seq<Posting>, x: Posting, runs: seq<seq<Posting>>, termBytes: Term -> nat, limit: nat)
    requires Budgeted(blocks, puts, runs, termBytes, limit)
    ensures Budgeted(blocks, puts + [x], runs, termBytes, limit)
  {
    hide Estimate;
    forall k | 0 <= k < |blocks|
      ensures FullAt(blocks, puts + [x], k, termBytes, limit)
    {
      assert FullAt(blocks, puts, k, termBytes, limit);
    }
  }

  datatype Build = Build(runs: seq<seq<Posting>>, lengths: seq<nat>, rids: seq<RID>)

  /** Spill the block as one more run. */
  method Flush(docs: seq<Document>, d: nat, ghost seen: set<Term>, runs: seq<seq<Posting>>, block: Block, ghost puts: seq<Posting>)
    returns (runs': seq<seq<Posting>>)
    requires Building(runs, block, docs, d, seen) && PutsOf(block, puts)
    ensures Building(runs', map[], docs, d, seen)
    ensures |runs'| == |runs| + 1 && runs'[..|runs|] == runs && multiset(runs'[|runs|]) == multiset(puts)
  {
    hide Building, BlockHas, PutsOf;
    var run := SpillBlock(block);
    RunIsBlock(block, puts, run);
    FlushStep(runs, block, docs, d, seen, run);
    runs' := runs + [run];
  }

  /** One term: spill first if it would exceed the budget, afterwards if the budget is used up. */
  method AddTerm(docs: seq<Document>, d: nat, ghost seen: set<Term>, t: Term, tf: nat, termBytes: Term -> nat, limit: nat,
                 runs: seq<seq<Posting>>, block: Block, used: nat, ghost blocks: seq<seq<Posting>>, ghost puts: seq<Posting>)
    returns (runs': seq<seq<Posting>>, block': Block, used': nat, ghost blocks': seq<seq<Posting>>, ghost puts': seq<Posting>)
    requires limit > 0 && Building(runs, block, docs, d, seen) && t !in seen && Correct(docs, Posting(t, d, tf))
    requires Budgeted(blocks, puts, runs, termBytes, limit) && PutsOf(block, puts) && used == Estimate(puts, termBytes) < limit
    ensures Building(runs', block', docs, d, seen + {t})
    ensures Budgeted(blocks', puts', runs', termBytes, limit) && PutsOf(block', puts') && used' == Estimate(puts', termBytes) < limit
  {
    hide *;
    runs', block', used', blocks', puts' := runs, block, used, blocks, puts;
    ghost var x := Posting(t, d, tf);
    var cost := 96 + if t !in block' then termBytes(t) + 64 else 0;
    CostIs(block, puts, x, termBytes);
    EmptyBlock(block, puts);
    NotPutYet(runs, block, docs, d, seen, t);
    if block' != map[] && used' + cost > limit {
      runs' := Flush(docs, d, seen, runs', block', puts');
      NextIsTooMuch(puts', x, termBytes, limit);
      Spilled(blocks', puts', runs, runs', [x], termBytes, limit);
      block', used', blocks', puts' := map[], 0, blocks' + [puts'], [];
      cost := 160 + termBytes(t);
      NothingPut();
      OneTerm(x, termBytes);
      NotPutYet(runs', block', docs, d, seen, t);
    } else {
      StillFull(blocks', puts', x, runs', termBytes, limit);
    }
    PutStep(runs', block', docs, d, seen, t, tf);
    PutMore(block', puts', t, d, tf);
    block', puts' := Put(block', t, d, tf), puts' + [x];
    used' := used' + cost;
    if used' >= limit {
      runs' := Flush(docs, d, seen + {t}, runs', block', puts');
      AtTheLimit(puts', termBytes, limit);
      Spilled(blocks', puts', runs'[..|runs'| - 1], runs', [], termBytes, limit);
      block', used', blocks', puts' := map[], 0, blocks' + [puts'], [];
      NothingPut();
      EstimateOfNone(termBytes);
    }
  }

  lemma EstimateOfNone(termBytes: Term -> nat)
    ensures Estimate([], termBytes) == 0
  {
  }

  lemma CostIs(block: Block, puts: seq<Posting>, x: Posting, termBytes: Term -> nat)
    requires PutsOf(block, puts)
    ensures Estimate(puts + [x], termBytes) == Estimate(puts, termBytes) + 96 + if x.term !in block then termBytes(x.term) + 64 else 0
  {
    EstimateMore(puts, x, termBytes);
  }

  lemma OneTerm(x: Posting, termBytes: Term -> nat)
    ensures Estimate([x], termBytes) == 160 + termBytes(x.term) && [] + [x] == [x] && Estimate([], termBytes) == 0
  {
    EstimateMore([], x, termBytes);
    assert [] + [x] == [x];
  }

  lemma NotPutYet(runs: seq<seq<Posting>>, block: Block, docs: seq<Document>, d: nat, seen: set<Term>, t: Term)
    requires Building(runs, block, docs, d, seen) && t !in seen
    ensures forall v :: !BlockHas(block, Posting(t, d, v))
  {
    forall v
      ensures !BlockHas(block, Posting(t, d, v))
    {
      assert !Counted(docs, d, seen, Posting(t, d, v));
    }
  }

  lemma NextIsTooMuch(puts: seq<Posting>, x: Posting, termBytes: Term -> nat, limit: nat)
    requires puts != [] && Estimate(puts, termBytes) < limit < Estimate(puts + [x], termBytes)
    ensures Within(puts, termBytes, limit) && Full(puts, [x], termBytes, limit)
  {
  }

  lemma AtTheLimit(puts: seq<Posting>, termBytes: Term -> nat, limit: nat)
    requires puts != [] && Estimate(puts, termBytes) >= limit && (|puts| == 1 || Estimate(puts, termBytes) <= limit)
    ensures Within(puts, termBytes, limit) && Full(puts, [], termBytes, limit)
  {
  }

  /** Put the counts of one document into the block, term by term. */
  method AddDocument(docs: seq<Document>, d: nat, termBytes: Term -> nat, limit: nat, runs: seq<seq<Posting>>, block: Block, used: nat,
                     ghost blocks: seq<seq<Posting>>, ghost puts: seq<Posting>)
    returns (runs': seq<seq<Posting>>, block': Block, used': nat, total: nat, ghost blocks': seq<seq<Posting>>, ghost puts': seq<Posting>)
    requires d < |docs| && limit > 0 && Building(runs, block, docs, d, {})
    requires Budgeted(blocks, puts, runs, termBytes, limit) && PutsOf(block, puts) && used == Estimate(puts, termBytes) < limit
    ensures Building(runs', block', docs, d + 1, {})
    ensures Budgeted(blocks', puts', runs', termBytes, limit) && PutsOf(block', puts') && used' == Estimate(puts', termBytes) < limit
    ensures total == |docs[d].tokens|
  {
    hide Building, SumOver, Budgeted, PutsOf, Estimate;
    var order, counts := CountTerms(docs[d].tokens);
    TotalIsLength(docs[d].tokens, order);
    runs', block', used', total, blocks', puts' := runs, block, used, 0, blocks, puts;
    ghost var seen: set<Term> := {};
    SumOfNothing(docs[d].tokens, order);
    for i := 0 to |order|
      invariant Building(runs', block', docs, d, seen) && forall t :: t in seen <==> t in order[..i]
      invariant total == SumOver(docs[d].tokens, order[..i])
      invariant Budgeted(blocks', puts', runs', termBytes, limit) && PutsOf(block', puts') && used' == Estimate(puts', termBytes) < limit
    {
      var t := order[i];
      assert t in order && forall x :: x in order[..i + 1] <==> x in order[..i] || x == t;
      NotYetSeen(order, i);
      TokenIsCounted(docs, d, t, counts[t]);
      runs', block', used', blocks', puts' := AddTerm(docs, d, seen, t, counts[t], termBytes, limit, runs', block', used', blocks', puts');
      seen := seen + {t};
      SumOverStep(docs[d].tokens, order, i);
      total := total + counts[t];
    }
    assert order[..|order|] == order;
    NextDocument(runs', block', docs, d, seen);
  }

  lemma SumOfNothing(tokens: seq<Term>, order: seq<Term>)
    ensures SumOver(tokens, order[..0]) == 0
  {
    assert order[..0] == [];
  }

  lemma TokenIsCounted(docs: seq<Document>, d: nat, t: Term, tf: nat)
    requires d < |docs| && t in docs[d].tokens && tf == multiset(docs[d].tokens)[t]
    ensures Correct(docs, Posting(t, d, tf))
  {
    assert t in multiset(docs[d].tokens);
  }

  lemma NotYetSeen(order: seq<Term>, i: nat)
    requires i < |order| && forall j, k :: 0 <= j < k < |order| ==> order[j] != order[k]
    ensures order[i] !in order[..i]
  {
  }

  /** The sum of the counts of some terms. */
  ghost function SumOver(tokens: seq<Term>, order: seq<Term>): nat {
    if order == [] then 0 else SumOver(tokens, order[..|order| - 1]) + multiset(tokens)[order[|order| - 1]]
  }

  lemma SumOverStep(tokens: seq<Term>, order: seq<Term>, i: nat)
    requires i < |order|
    ensures SumOver(tokens, order[..i + 1]) == SumOver(tokens, order[..i]) + multiset(tokens)[order[i]]
  {
    assert order[..i + 1][..i] == order[..i];
  }

  /** The counts of all distinct terms add up to the length of the document. */
  lemma {:induction false} TotalIsLength(tokens: seq<Term>, order: seq<Term>)
    requires forall t :: t in tokens ==> t in order
    requires forall i, j :: 0 <= i < j < |order| ==> order[i] != order[j]
    ensures SumOver(tokens, order) == |tokens|
  {
    if tokens == [] {
      SumOfNone(order);
    } else {
      var front, last := tokens[..|tokens| - 1], tokens[|tokens| - 1];
      TotalIsLength(front, order);
      BagLast(tokens);
      assert last in tokens;
      OneMoreToken(front, tokens, last, order);
    }
  }

  lemma {:induction false} SumOfNone(order: seq<Term>)
    ensures SumOver([], order) == 0
  {
    if order != [] {
      SumOfNone(order[..|order| - 1]);
    }
  }

  lemma {:induction false} OneMoreToken(front: seq<Term>, tokens: seq<Term>, last: Term, order: seq<Term>)
    requires multiset(tokens) == multiset(front) + multiset{last}
    requires forall i, j :: 0 <= i < j < |order| ==> order[i] != order[j]
    ensures SumOver(tokens, order) == SumOver(front, order) + if last in order then 1 else 0
  {
    if order != [] {
      OneMoreToken(front, tokens, last, order[..|order| - 1]);
      assert last in order <==> last in order[..|order| - 1] || last == order[|order| - 1];
    }
  }

  /**
   Sorted runs that together hold exactly the postings of the documents, at any memory limit.
   Refused are a limit that is not positive and documents with invalid or repeated RIDs.
   */
  method SpimiRuns(docs: seq<Document>, termBytes: Term -> nat, memoryLimit: int)
    returns (build: Option<Build>, ghost blocks: seq<seq<Posting>>)
    ensures build.None? <==> memoryLimit <= 0 || !ValidDocuments(docs)
    ensures build.Some? ==> AllSorted(build.value.runs, PostingOrder()) && RunsOf(build.value.runs, docs)
    ensures build.Some? ==> forall x ::
              multiset(Flatten(build.value.runs))[x] == if x.tf > 0 && x.doc < |docs| && x.tf == multiset(docs[x.doc].tokens)[x.term] then 1 else 0
    ensures build.Some? ==> forall k, i, j :: 0 <= k < |build.value.runs| && 0 <= i < j < |build.value.runs[k]| ==>
              var a, b := build.value.runs[k][i], build.value.runs[k][j]; a.term < b.term || (a.term == b.term && a.doc <= b.doc)
    ensures build.Some? ==> memoryLimit > 0 && InBudget(blocks, build.value.runs, termBytes, memoryLimit)
    ensures build.Some? ==> build.value.rids == seq(|docs|, d requires 0 <= d < |docs| => docs[d].rid)
    ensures build.Some? ==> build.value.lengths == seq(|docs|, d requires 0 <= d < |docs| => |docs[d].tokens|)
  {
    hide *;
    blocks := [];
    if memoryLimit <= 0 {
      return None, [];
    }
    var runs: seq<seq<Posting>>, block: Block, used := [], map[], 0;
    var lengths: seq<nat>, rids: seq<RID> := [], [];
    ghost var puts: seq<Posting> := [];
    NothingBuilt(docs);
    NothingNoted(docs);
    NothingPut();
    EstimateOfNone(termBytes);
    NoBlocks(termBytes, memoryLimit);
    for d := 0 to |docs|
      invariant Building(runs, block, docs, d, {}) && Noted(docs, d, rids, lengths)
      invariant Budgeted(blocks, puts, runs, termBytes, memoryLimit) && PutsOf(block, puts) && used == Estimate(puts, termBytes) < memoryLimit
    {
      var rid := docs[d].rid;
      if !ValidRid(rid) || rid in rids {
        RidRefused(docs, d, rids, lengths);
        return None, [];
      }
      var total;
      runs, block, used, total, blocks, puts := AddDocument(docs, d, termBytes, memoryLimit, runs, block, used, blocks, puts);
      NoteOne(docs, d, rids, lengths, total);
      lengths, rids := lengths + [total], rids + [rid];
    }
    EmptyBlock(block, puts);
    if block != map[] {
      LessThanLimit(puts, termBytes, memoryLimit);
      runs := Flush(docs, |docs|, {}, runs, block, puts);
      LastBlock(blocks, puts, runs, termBytes, memoryLimit);
      blocks := blocks + [puts];
    } else {
      LastIsFull(blocks, runs, termBytes, memoryLimit);
    }
    AllBuilt(runs, docs);
    RunsAre(runs, docs);
    AllNoted(docs, rids, lengths);
    build := Some(Build(runs, lengths, rids));
  }

  lemma RunsAre(runs: seq<seq<Posting>>, docs: seq<Document>)
    requires AllSorted(runs, PostingOrder()) && RunsOf(runs, docs)
    ensures forall x :: multiset(Flatten(runs))[x] == if x.tf > 0 && x.doc < |docs| && x.tf == multiset(docs[x.doc].tokens)[x.term] then 1 else 0
    ensures forall k, i, j :: 0 <= k < |runs| && 0 <= i < j < |runs[k]| ==>
              var a, b := runs[k][i], runs[k][j]; a.term < b.term || (a.term == b.term && a.doc <= b.doc)
  {
    BagIs(runs);
    forall x: Posting
      ensures multiset(Flatten(runs))[x] == if x.tf > 0 && x.doc < |docs| && x.tf == multiset(docs[x.doc].tokens)[x.term] then 1 else 0
    {
      assert Bag(runs)[x] == if Correct(docs, x) then 1 else 0;
    }
    forall k, i, j | 0 <= k < |runs| && 0 <= i < j < |runs[k]|
      ensures var a, b := runs[k][i], runs[k][j]; a.term < b.term || (a.term == b.term && a.doc <= b.doc)
    {
      assert SortedBy(runs[k], PostingOrder());
      assert PostingOrder()(runs[k][i], runs[k][j]);
    }
  }

  lemma NoBlocks(termBytes: Term -> nat, limit: nat)
    ensures Budgeted([], [], [], termBytes, limit)
  {
  }

  lemma LastBlock(blocks: seq<seq<Posting>>, puts: seq<Posting>, runs: seq<seq<Posting>>, termBytes: Term -> nat, limit: nat)
    requires |runs| > 0 && Budgeted(blocks, puts, runs[..|runs| - 1], termBytes, limit)
    requires Within(puts, termBytes, limit) && multiset(runs[|runs| - 1]) == multiset(puts)
    ensures InBudget(blocks + [puts], runs, termBytes, limit)
  {
    hide Within, Full;
    var all := blocks + [puts];
    forall k | 0 <= k < |all|
      ensures multiset(all[k]) == multiset(runs[k]) && Within(all[k], termBytes, limit)
    {
      assert k < |blocks| ==> runs[..|runs| - 1][k] == runs[k] && all[k] == blocks[k];
    }
    forall k | 0 <= k < |all| - 1
      ensures Full(all[k], all[k + 1], termBytes, limit)
    {
      assert FullAt(blocks, puts, k, termBytes, limit);
    }
  }

  lemma LastIsFull(blocks: seq<seq<Posting>>, runs: seq<seq<Posting>>, termBytes: Term -> nat, limit: nat)
    requires Budgeted(blocks, [], runs, termBytes, limit)
    ensures InBudget(blocks, runs, termBytes, limit)
  {
    hide Within, Full;
    forall k | 0 <= k < |blocks| - 1
      ensures Full(blocks[k], blocks[k + 1], termBytes, limit)
    {
      assert FullAt(blocks, [], k, termBytes, limit);
    }
  }

  lemma LessThanLimit(puts: seq<Posting>, termBytes: Term -> nat, limit: nat)
    requires puts != [] && Estimate(puts, termBytes) < limit
    ensures Within(puts, termBytes, limit)
  {
  }

  /** The documents up to d are valid, and their RIDs and lengths were noted. */
  ghost predicate Noted(docs: seq<Document>, d: nat, rids: seq<RID>, lengths: seq<nat>) {
    && d <= |docs| && |rids| == d && |lengths| == d
    && (forall e :: 0 <= e < d ==> rids[e] == docs[e].rid && lengths[e] == |docs[e].tokens| && ValidRid(rids[e]))
    && (forall e, f :: 0 <= e < f < d ==> rids[e] != rids[f])
  }

  lemma NothingNoted(docs: seq<Document>)
    ensures Noted(docs, 0, [], [])
  {
  }

  lemma NoteOne(docs: seq<Document>, d: nat, rids: seq<RID>, lengths: seq<nat>, total: nat)
    requires d < |docs| && Noted(docs, d, rids, lengths) && ValidRid(docs[d].rid) && docs[d].rid !in rids && total == |docs[d].tokens|
    ensures Noted(docs, d + 1, rids + [docs[d].rid], lengths + [total])
  {
  }

  lemma RidRefused(docs: seq<Document>, d: nat, rids: seq<RID>, lengths: seq<nat>)
    requires d < |docs| && Noted(docs, d, rids, lengths) && (!ValidRid(docs[d].rid) || docs[d].rid in rids)
    ensures !ValidDocuments(docs)
  {
    if docs[d].rid in rids {
      var e :| 0 <= e < d && rids[e] == docs[d].rid;
      assert docs[e].rid == docs[d].rid;
    }
  }

  lemma AllNoted(docs: seq<Document>, rids: seq<RID>, lengths: seq<nat>)
    requires Noted(docs, |docs|, rids, lengths)
    ensures ValidDocuments(docs)
    ensures rids == seq(|docs|, d requires 0 <= d < |docs| => docs[d].rid)
    ensures lengths == seq(|docs|, d requires 0 <= d < |docs| => |docs[d].tokens|)
  {
  }

  /** Documents are refused for a negative part of a RID or for two equal RIDs. */
  lemma ValidDocumentsAre(docs: seq<Document>)
    ensures ValidDocuments(docs) <==>
              && (forall d :: 0 <= d < |docs| ==> docs[d].rid.pageId >= 0 && docs[d].rid.slot >= 0)
              && (forall d, e :: 0 <= d < e < |docs| ==> docs[d].rid != docs[e].rid)
  {
    assert (forall d :: 0 <= d < |docs| ==> ValidRid(docs[d].rid)) <==>
           (forall d :: 0 <= d < |docs| ==> docs[d].rid.pageId >= 0 && docs[d].rid.slot >= 0);
  }

  lemma NothingBuilt(docs: seq<Document>)
    ensures Building([], map[], docs, 0, {})
  {
    BagNone<Posting>();
  }

  lemma AllBuilt(runs: seq<seq<Posting>>, docs: seq<Document>)
    requires Building(runs, map[], docs, |docs|, {})
    ensures AllSorted(runs, PostingOrder()) && RunsOf(runs, docs)
  {
    hide Bag;
    forall x
      ensures Bag(runs)[x] == if Correct(docs, x) then 1 else 0
    {
      assert !BlockHas(map[], x);
    }
  }

  // ----- merging the runs into an index -----

  datatype Entry = Entry(term: Term, postings: seq<(nat, nat)>)

  /** The index lists document d with frequency v under term t. */
  ghost predicate Lists(index: seq<Entry>, t: Term, d: nat, v: nat) {
    exists i, j :: 0 <= i < |index| && 0 <= j < |index[i].postings| && index[i].term == t && index[i].postings[j] == (d, v)
  }

  /** Terms strictly ascending, each with documents strictly ascending. */
  ghost predicate IndexSorted(index: seq<Entry>) {
    && (forall i, j :: 0 <= i < j < |index| ==> index[i].term < index[j].term)
    && (forall i :: 0 <= i < |index| ==> index[i].postings != [])
    && (forall i, j, k :: 0 <= i < |index| && 0 <= j < k < |index[i].postings| ==> index[i].postings[j].0 < index[i].postings[k].0)
  }

  /** The sum of the frequencies recorded for a term and a document. */
  function SumTf(s: seq<Posting>, t: Term, d: nat): nat {
    if s == [] then 0
    else SumTf(s[..|s| - 1], t, d) + if s[|s| - 1].term == t && s[|s| - 1].doc == d then s[|s| - 1].tf else 0
  }

  ghost predicate Occurs(s: seq<Posting>, t: Term, d: nat) {
    exists i :: 0 <= i < |s| && s[i].term == t && s[i].doc == d
  }

  ghost predicate IndexOf(index: seq<Entry>, s: seq<Posting>) {
    IndexSorted(index) && forall t, d, v {:trigger Lists(index, t, d, v)} ::
      Lists(index, t, d, v) <==> Occurs(s, t, d) && v == SumTf(s, t, d)
  }

  function Last(index: seq<Entry>): (nat, nat)
    requires index != [] && index[|index| - 1].postings != []
  {
    index[|index| - 1].postings[|index[|index| - 1].postings| - 1]
  }

  /** The index after one more posting of a sorted stream. */
  function Extend(index: seq<Entry>, x: Posting): seq<Entry>
    requires index != [] ==> index[|index| - 1].postings != []
  {
    if index == [] || index[|index| - 1].term != x.term then index + [Entry(x.term, [(x.doc, x.tf)])]
    else
      var e := index[|index| - 1];
      var n := |e.postings|;
      if e.postings[n - 1].0 == x.doc then index[|index| - 1 := Entry(e.term, e.postings[n - 1 := (x.doc, e.postings[n - 1].1 + x.tf)])]
      else index[|index| - 1 := Entry(e.term, e.postings + [(x.doc, x.tf)])]
  }

  /** The end of the index is where the stream is. */
  ghost predicate AtEnd(index: seq<Entry>, s: seq<Posting>) {
    && (s == [] <==> index == [])
    && (index != [] ==> index[|index| - 1].postings != [] && index[|index| - 1].term == s[|s| - 1].term && Last(index).0 == s[|s| - 1].doc)
  }

  method GroupPostings(s: seq<Posting>) returns (index: seq<Entry>)
    requires SortedBy(s, PostingOrder())
    ensures IndexOf(index, s)
  {
    index := [];
    assert s[..0] == [];
    NothingListed();
    hide IndexOf, PostingOrder;
    for n := 0 to |s|
      invariant IndexOf(index, s[..n]) && AtEnd(index, s[..n])
    {
      ExtendIs(index, s, n);
      index := Extend(index, s[n]);
    }
    assert s[..|s|] == s;
  }

  lemma NothingListed()
    ensures IndexOf([], []) && AtEnd([], [])
  {
  }

  lemma ExtendIs(index: seq<Entry>, s: seq<Posting>, n: nat)
    requires n < |s| && SortedBy(s, PostingOrder()) && IndexOf(index, s[..n]) && AtEnd(index, s[..n])
    ensures IndexOf(Extend(index, s[n]), s[..n + 1]) && AtEnd(Extend(index, s[n]), s[..n + 1])
  {
    hide SumTf, Occurs, Lists;
    var x := s[n];
    var after := Extend(index, x);
    assert s[..n + 1][..n] == s[..n] && s[..n + 1][n] == x;
    if n > 0 {
      assert PostingOrder()(s[n - 1], s[n]);
    }
    assert Behind(index, x);
    ExtendSorted(index, x);
    forall t, d, v
      ensures Lists(after, t, d, v) <==> Occurs(s[..n + 1], t, d) && v == SumTf(s[..n + 1], t, d)
    {
      ExtendLists(index, x, t, d, v);
      SumStep(s, n, t, d);
      OccursStep(s, n, t, d);
      assert Lists(index, t, d, v) <==> Occurs(s[..n], t, d) && v == SumTf(s[..n], t, d);
      var w := SumTf(s[..n], t, d);
      ExtendLists(index, x, t, d, w);
      assert Lists(index, t, d, w) <==> Occurs(s[..n], t, d);
      if SamePlace(index, x) {
        ExtendLists(index, x, t, d, Last(index).1);
        assert Lists(index, t, d, Last(index).1) <==> Occurs(s[..n], t, d) && Last(index).1 == w;
      }
    }
  }

  lemma SumStep(s: seq<Posting>, n: nat, t: Term, d: nat)
    requires n < |s|
    ensures SumTf(s[..n + 1], t, d) == SumTf(s[..n], t, d) + if s[n].term == t && s[n].doc == d then s[n].tf else 0
  {
    assert s[..n + 1][..n] == s[..n];
  }

  lemma OccursStep(s: seq<Posting>, n: nat, t: Term, d: nat)
    requires n < |s|
    ensures Occurs(s[..n + 1], t, d) <==> Occurs(s[..n], t, d) || (s[n].term == t && s[n].doc == d)
    ensures !Occurs(s[..n], t, d) ==> SumTf(s[..n], t, d) == 0
  {
    if Occurs(s[..n], t, d) {
      var i :| 0 <= i < n && s[..n][i].term == t && s[..n][i].doc == d;
      assert s[..n + 1][i].term == t;
    } else {
      SumOfAbsent(s[..n], t, d);
    }
    if s[n].term == t && s[n].doc == d {
      assert s[..n + 1][n].term == t;
    }
    if Occurs(s[..n + 1], t, d) && !(s[n].term == t && s[n].doc == d) {
      var i :| 0 <= i < n + 1 && s[..n + 1][i].term == t && s[..n + 1][i].doc == d;
      assert s[..n][i].term == t;
    }
  }

  lemma {:induction false} SumOfAbsent(s: seq<Posting>, t: Term, d: nat)
    requires !Occurs(s, t, d)
    ensures SumTf(s, t, d) == 0
  {
    if s != [] {
      var front, last := s[..|s| - 1], s[|s| - 1];
      assert !(last.term == t && last.doc == d) by {
        assert s[|s| - 1] == last;
      }
      forall i | 0 <= i < |front|
        ensures !(front[i].term == t && front[i].doc == d)
      {
        assert front[i] == s[i];
      }
      SumOfAbsent(front, t, d);
    }
  }

  /** The stream goes on behind the end of the index. */
  ghost predicate Behind(index: seq<Entry>, x: Posting) {
    index != [] ==>
      && index[|index| - 1].postings != [] && index[|index| - 1].term <= x.term
      && (index[|index| - 1].term == x.term ==> Last(index).0 <= x.doc)
  }

  ghost predicate SamePlace(index: seq<Entry>, x: Posting) {
    index != [] && index[|index| - 1].postings != [] && index[|index| - 1].term == x.term && Last(index).0 == x.doc
  }

  lemma ExtendSorted(index: seq<Entry>, x: Posting)
    requires IndexSorted(index) && Behind(index, x)
    ensures IndexSorted(Extend(index, x))
  {
    if index != [] && index[|index| - 1].term == x.term {
      var e := index[|index| - 1];
      forall j, k | 0 <= j < k < |e.postings|
        ensures e.postings[j].0 < e.postings[k].0
      {
        assert index[|index| - 1].postings[j].0 < index[|index| - 1].postings[k].0;
      }
    }
  }

  /** What is listed after one more posting: only its own place changes. */
  lemma ExtendLists(index: seq<Entry>, x: Posting, t: Term, d: nat, v: nat)
    requires IndexSorted(index) && Behind(index, x)
    ensures (t, d) != (x.term, x.doc) ==> (Lists(Extend(index, x), t, d, v) <==> Lists(index, t, d, v))
    ensures (t, d) == (x.term, x.doc) ==> (Lists(Extend(index, x), t, d, v) <==>
              v == x.tf + if SamePlace(index, x) then Last(index).1 else 0)
    ensures (t, d) == (x.term, x.doc) ==> (Lists(index, t, d, v) <==> SamePlace(index, x) && v == Last(index).1)
  {
    if (t, d) == (x.term, x.doc) {
      ListedLast(index, x, v);
      ExtendSorted(index, x);
      ListedLast(Extend(index, x), Posting(x.term, x.doc, 0), v);
    } else {
      ListedElsewhere(index, x, t, d, v);
    }
  }

  /** The place where the stream is can only be the last one. */
  lemma ListedLast(index: seq<Entry>, x: Posting, v: nat)
    requires IndexSorted(index) && Behind(index, x)
    ensures Lists(index, x.term, x.doc, v) <==> SamePlace(index, x) && v == Last(index).1
  {
    if SamePlace(index, x) && v == Last(index).1 {
      var i := |index| - 1;
      var j := |index[i].postings| - 1;
      assert index[i].term == x.term && index[i].postings[j] == (x.doc, v);
    }
    assert index != [] ==> var ps := index[|index| - 1].postings;
                           forall j :: 0 <= j < |ps| - 1 ==> ps[j].0 < ps[|ps| - 1].0;
    if Lists(index, x.term, x.doc, v) {
      var i, j :| 0 <= i < |index| && 0 <= j < |index[i].postings| && index[i].term == x.term && index[i].postings[j] == (x.doc, v);
      assert i == |index| - 1;
    }
  }

  lemma ListedElsewhere(index: seq<Entry>, x: Posting, t: Term, d: nat, v: nat)
    requires IndexSorted(index) && Behind(index, x) && (t, d) != (x.term, x.doc)
    ensures Lists(Extend(index, x), t, d, v) <==> Lists(index, t, d, v)
  {
    hide IndexSorted;
    var after := Extend(index, x);
    if Lists(index, t, d, v) {
      var i, j :| 0 <= i < |index| && 0 <= j < |index[i].postings| && index[i].term == t && index[i].postings[j] == (d, v);
      KeepsPlace(index, x, i, j);
      assert after[i].term == t && after[i].postings[j] == (d, v);
    }
    if Lists(after, t, d, v) {
      var i, j :| 0 <= i < |after| && 0 <= j < |after[i].postings| && after[i].term == t && after[i].postings[j] == (d, v);
      OldPlace(index, x, i, j);
      assert index[i].term == t && index[i].postings[j] == (d, v);
    }
  }

  lemma KeepsPlace(index: seq<Entry>, x: Posting, i: nat, j: nat)
    requires Behind(index, x) && i < |index| && j < |index[i].postings|
    requires (index[i].term, index[i].postings[j].0) != (x.term, x.doc)
    ensures var after := Extend(index, x);
            i < |after| && after[i].term == index[i].term && j < |after[i].postings| && after[i].postings[j] == index[i].postings[j]
  {
  }

  lemma OldPlace(index: seq<Entry>, x: Posting, i: nat, j: nat)
    requires Behind(index, x)
    requires var after := Extend(index, x);
             i < |after| && j < |after[i].postings| && (after[i].term, after[i].postings[j].0) != (x.term, x.doc)
    ensures var after := Extend(index, x);
            i < |index| && index[i].term == after[i].term && j < |index[i].postings| && index[i].postings[j] == after[i].postings[j]
  {
  }

  // ----- the whole build -----

  /** Merge the runs in passes, then group the sorted stream by term and document. */
  method MergedTerms(runs: seq<seq<Posting>>, fanIn: int) returns (index: Option<seq<Entry>>, ghost stream: seq<Posting>)
    requires AllSorted(runs, PostingOrder())
    ensures index.None? <==> fanIn < 2
    ensures index.Some? ==> multiset(stream) == Bag(runs) && IndexOf(index.value, stream)
  {
    PostingOrderIsTotal();
    var s := MergeSortedRuns(runs, PostingOrder(), fanIn);
    stream := [];
    if s.None? {
      return None, [];
    }
    var grouped := GroupPostings(s.value);
    index, stream := Some(grouped), s.value;
  }

  lemma {:induction false} SumAllSame(s: seq<Posting>, t: Term, d: nat, f: nat)
    requires forall i :: 0 <= i < |s| && s[i].term == t && s[i].doc == d ==> s[i].tf == f
    ensures SumTf(s, t, d) == f * multiset(s)[Posting(t, d, f)]
  {
    if s != [] {
      SumAllSame(s[..|s| - 1], t, d, f);
      BagLast(s);
      TimesNext(f, multiset(s[..|s| - 1])[Posting(t, d, f)]);
    }
  }

  lemma TimesNext(f: nat, n: nat)
    ensures f * (n + 1) == f * n + f
  {
  }

  /** A stream with exactly the postings of the documents gives exactly their index. */
  lemma StreamIsDirect(stream: seq<Posting>, docs: seq<Document>, t: Term, d: nat, v: nat)
    requires forall x {:trigger multiset(stream)[x]} :: multiset(stream)[x] == if Correct(docs, x) then 1 else 0
    ensures Occurs(stream, t, d) && v == SumTf(stream, t, d) <==> v > 0 && v == Frequency(docs, t, d)
  {
    var f := Frequency(docs, t, d);
    forall i | 0 <= i < |stream| && stream[i].term == t && stream[i].doc == d
      ensures stream[i].tf == f && f > 0
    {
      assert stream[i] in multiset(stream);
      assert multiset(stream)[stream[i]] == if Correct(docs, stream[i]) then 1 else 0;
    }
    SumAllSame(stream, t, d, f);
    assert multiset(stream)[Posting(t, d, f)] == if Correct(docs, Posting(t, d, f)) then 1 else 0;
    if f > 0 {
      assert Posting(t, d, f) in stream;
      var i :| 0 <= i < |stream| && stream[i] == Posting(t, d, f);
    }
  }

  /** The term has a posting of the document. */
  ghost predicate Listed(index: seq<Entry>, t: Term, d: nat) {
    exists i, j :: 0 <= i < |index| && 0 <= j < |index[i].postings| && index[i].term == t && index[i].postings[j].0 == d
  }

  lemma IndexIs(index: seq<Entry>, docs: seq<Document>)
    requires IndexSorted(index)
    requires forall t, d, v {:trigger Lists(index, t, d, v)} :: Lists(index, t, d, v) <==> v > 0 && v == Frequency(docs, t, d)
    ensures forall i, j :: 0 <= i < j < |index| ==> index[i].term < index[j].term
    ensures forall i :: 0 <= i < |index| ==> index[i].postings != []
    ensures forall i, j, k :: 0 <= i < |index| && 0 <= j < k < |index[i].postings| ==> index[i].postings[j].0 < index[i].postings[k].0
    ensures forall i, j :: 0 <= i < |index| && 0 <= j < |index[i].postings| ==>
              var (d, v) := index[i].postings[j]; d < |docs| && v > 0 && v == multiset(docs[d].tokens)[index[i].term]
    ensures forall d, t :: 0 <= d < |docs| && t in docs[d].tokens ==> Listed(index, t, d)
  {
    forall i, j | 0 <= i < |index| && 0 <= j < |index[i].postings|
      ensures var (d, v) := index[i].postings[j]; d < |docs| && v > 0 && v == multiset(docs[d].tokens)[index[i].term]
    {
      assert Lists(index, index[i].term, index[i].postings[j].0, index[i].postings[j].1);
    }
    forall d: nat, t | d < |docs| && t in docs[d].tokens
      ensures Listed(index, t, d)
    {
      assert t in multiset(docs[d].tokens);
      assert Lists(index, t, d, Frequency(docs, t, d));
    }
  }

  /**
   Whatever the memory limit and the fan-in: the index lists exactly the documents that hold a
   term, with the number of times they do, terms and documents strictly ascending.
   */
  method BuildIndex(docs: seq<Document>, termBytes: Term -> nat, memoryLimit: int, fanIn: int) returns (index: Option<seq<Entry>>)
    ensures index.None? <==> memoryLimit <= 0 || !ValidDocuments(docs) || fanIn < 2
    ensures index.Some? ==> forall i, j :: 0 <= i < j < |index.value| ==> index.value[i].term < index.value[j].term
    ensures index.Some? ==> forall i :: 0 <= i < |index.value| ==> index.value[i].postings != []
    ensures index.Some? ==> forall i, j, k :: 0 <= i < |index.value| && 0 <= j < k < |index.value[i].postings| ==>
              index.value[i].postings[j].0 < index.value[i].postings[k].0
    ensures index.Some? ==> forall i, j :: 0 <= i < |index.value| && 0 <= j < |index.value[i].postings| ==>
              var (d, v) := index.value[i].postings[j]; d < |docs| && v > 0 && v == multiset(docs[d].tokens)[index.value[i].term]
    ensures index.Some? ==> forall d, t :: 0 <= d < |docs| && t in docs[d].tokens ==> Listed(index.value, t, d)
  {
    var build, _ := SpimiRuns(docs, termBytes, memoryLimit);
    if build.None? {
      return None;
    }
    ghost var stream;
    index, stream := MergedTerms(build.value.runs, fanIn);
    if index.Some? {
      hide Bag, Correct, Frequency, Lists, IndexSorted;
      forall x
        ensures multiset(stream)[x] == if Correct(docs, x) then 1 else 0
      {
        assert Bag(build.value.runs)[x] == if Correct(docs, x) then 1 else 0;
      }
      forall t, d, v
        ensures Lists(index.value, t, d, v) <==> v > 0 && v == Frequency(docs, t, d)
      {
        StreamIsDirect(stream, docs, t, d, v);
        assert Lists(index.value, t, d, v) <==> Occurs(stream, t, d) && v == SumTf(stream, t, d);
      }
      IndexIs(index.value, docs);
    }
  }
}
