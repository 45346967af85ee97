/**
 What the pages of a sequential file mean and what every change to them keeps: the chains
 of main and overflow pages, the key ranges of the buckets, and the bound on dead space
 (engine/storage/sequential_file.py, _sequential_page.py).

 A bucket is a main page followed by its overflow pages; the main pages are linked in key
 order. All live keys of one bucket are below all live keys of the next bucket that has any.
 Three changes can happen to a file: the body of one page is exchanged, an overflow page is
 linked behind the last page of its bucket, or a new bucket is linked behind the last one.
 For each there is one lemma that says what it needs to keep the invariant. The metadata in
 memory (largest key of a bucket, successor and owner of a page) is determined by the pages.
 */
module SequentialInvariant {
  import opened Common
  import opened Sequences
  import opened SlottedPages

  /** Keys are any totally ordered values; every countable order embeds in the reals. */
  type Key = real

  datatype SeqPage = SeqPage(isMain: bool, next: Option<nat>, firstOverflow: Option<nat>, body: Page)

  /** The pages, and by walk order the page ids of each bucket: its main page, then its overflow chain. */
  datatype File = File(bodySize: nat, keyOf: seq<Byte> -> Key, pages: map<nat, SeqPage>, pageCount: nat, buckets: seq<seq<nat>>)

  function PageKeys(keyOf: seq<Byte> -> Key, p: Page): set<Key> {
    set s | 0 <= s < |p.slots| && p.slots[s].Some? :: keyOf(p.slots[s].value)
  }

  function KeysAt(F: File, id: nat): set<Key> {
    if id in F.pages then PageKeys(F.keyOf, F.pages[id].body) else {}
  }

  function KeysOfPages(F: File, ids: seq<nat>): set<Key> {
    if ids == [] then {} else KeysOfPages(F, ids[..|ids| - 1]) + KeysAt(F, ids[|ids| - 1])
  }

  /** The keys of the live records of bucket i. */
  function Keys(F: File, i: nat): set<Key>
    requires i < |F.buckets|
  {
    KeysOfPages(F, F.buckets[i])
  }

  // ----- structure -----

  ghost predicate At(F: File, id: nat, i: nat, k: nat) {
    i < |F.buckets| && k < |F.buckets[i]| && F.buckets[i][k] == id
  }

  function NextOf(ids: seq<nat>, k: nat): Option<nat> {
    if k + 1 < |ids| then Some(ids[k + 1]) else None
  }

  function MainAfter(F: File, i: nat): Option<nat> {
    if i + 1 < |F.buckets| && F.buckets[i + 1] != [] then Some(F.buckets[i + 1][0]) else None
  }

  /** The k-th page of bucket i is linked as its place in the walk says. */
  ghost predicate Linked(F: File, i: nat, k: nat)
    requires i < |F.buckets| && k < |F.buckets[i]|
  {
    var id := F.buckets[i][k];
    && id in F.pages && F.pages[id].isMain == (k == 0)
    && F.pages[id].next == (if k == 0 then MainAfter(F, i) else NextOf(F.buckets[i], k))
    && F.pages[id].firstOverflow == (if k == 0 then NextOf(F.buckets[i], 0) else None)
  }

  ghost predicate BodyOk(F: File, id: nat) {
    id in F.pages && Ok(F.pages[id].body) && F.pages[id].body.size == F.bodySize
  }

  ghost predicate StructureOk(F: File) {
    && |F.buckets| > 0 && (forall i :: 0 <= i < |F.buckets| ==> F.buckets[i] != []) && F.buckets[0][0] == 0
    && (forall i, k {:trigger Linked(F, i, k)} :: 0 <= i < |F.buckets| && 0 <= k < |F.buckets[i]| ==> Linked(F, i, k))
    && (forall id, i, k, j, l {:trigger At(F, id, i, k), At(F, id, j, l)} :: At(F, id, i, k) && At(F, id, j, l) ==> i == j && k == l)
    && (forall id: nat :: id in F.pages <==> id < F.pageCount)
    && (forall id {:trigger BodyOk(F, id)} :: id in F.pages ==> BodyOk(F, id) && exists i, k :: At(F, id, i, k))
  }

  /** All keys of a bucket lie strictly below all keys of every later one. */
  ghost predicate OrderOk(F: File) {
    forall i, j, x, y :: 0 <= i < j < |F.buckets| && x in Keys(F, i) && y in Keys(F, j) ==> x < y
  }

  // ----- dead space -----

  function Dead(p: SeqPage): int {
    Reclaimable(p.body)
  }

  function Used(p: SeqPage): int {
    Occupied(p.body)
  }

  function Sum(pages: map<nat, SeqPage>, ids: seq<nat>, f: SeqPage -> int): int {
    if ids == [] then 0
    else Sum(pages, ids[..|ids| - 1], f) + if ids[|ids| - 1] in pages then f(pages[ids[|ids| - 1]]) else 0
  }

  function SumAll(pages: map<nat, SeqPage>, buckets: seq<seq<nat>>, f: SeqPage -> int): int {
    if buckets == [] then 0
    else SumAll(pages, buckets[..|buckets| - 1], f) + Sum(pages, buckets[|buckets| - 1], f)
  }

  /** At most thirty percent of the occupied bytes are dead. */
  ghost predicate WasteOk(F: File) {
    SumAll(F.pages, F.buckets, Dead) * 100 <= SumAll(F.pages, F.buckets, Used) * 30
  }

  /** The dead bytes of the first n pages: what neither is free in front nor belongs to a live record. */
  function DeadBytes(pages: map<nat, SeqPage>, n: nat): int {
    if n == 0 then 0
    else DeadBytes(pages, n - 1) +
         if n - 1 in pages then pages[n - 1].body.size - pages[n - 1].body.freeOffset - LiveBytes(pages[n - 1].body.slots) else 0
  }

  /** The occupied bytes of the first n pages. */
  function UsedBytes(pages: map<nat, SeqPage>, n: nat): int {
    if n == 0 then 0
    else UsedBytes(pages, n - 1) + if n - 1 in pages then pages[n - 1].body.size - pages[n - 1].body.freeOffset else 0
  }

  function Numbers(n: nat): seq<nat> {
    if n == 0 then [] else Numbers(n - 1) + [n - 1]
  }

  lemma {:induction false} SumOfNumbers(pages: map<nat, SeqPage>, n: nat)
    ensures Sum(pages, Numbers(n), Dead) == DeadBytes(pages, n) && Sum(pages, Numbers(n), Used) == UsedBytes(pages, n)
  {
    if n > 0 {
      SumOfNumbers(pages, n - 1);
      assert Numbers(n)[..|Numbers(n)| - 1] == Numbers(n - 1);
    }
  }

  lemma {:induction false} SumConcat(pages: map<nat, SeqPage>, a: seq<nat>, b: seq<nat>, f: SeqPage -> int)
    ensures Sum(pages, a + b, f) == Sum(pages, a, f) + Sum(pages, b, f)
  {
    if b == [] {
      assert a + b == a;
    } else {
      SumConcat(pages, a, b[..|b| - 1], f);
      assert (a + b)[..|a + b| - 1] == a + b[..|b| - 1];
    }
  }

  lemma {:induction false} SumFlat(pages: map<nat, SeqPage>, bs: seq<seq<nat>>, f: SeqPage -> int)
    ensures SumAll(pages, bs, f) == Sum(pages, Flatten(bs), f)
  {
    if bs != [] {
      SumFlat(pages, bs[..|bs| - 1], f);
      SumConcat(pages, Flatten(bs[..|bs| - 1]), bs[|bs| - 1], f);
    }
  }

  /** A sum over all numbers below n, each once, does not depend on their order. */
  lemma {:induction false} SumInAnyOrder(pages: map<nat, SeqPage>, ids: seq<nat>, n: nat, f: SeqPage -> int)
    requires forall id: nat :: id in ids <==> id < n
    requires forall j, k :: 0 <= j < k < |ids| ==> ids[j] != ids[k]
    ensures Sum(pages, ids, f) == Sum(pages, Numbers(n), f)
    decreases n
  {
    if n == 0 {
      NothingBelowZero(ids);
    } else {
      hide Sum;
      assert n - 1 in ids;
      var k: nat :| k < |ids| && ids[k] == n - 1;
      SplitAround(ids, k, n);
      SumInAnyOrder(pages, ids[..k] + ids[k + 1..], n - 1, f);
      SumWithout(pages, ids, k, f);
      SumConcat(pages, Numbers(n - 1), [n - 1], f);
    }
  }

  lemma SumWithout(pages: map<nat, SeqPage>, ids: seq<nat>, k: nat, f: SeqPage -> int)
    requires k < |ids|
    ensures Sum(pages, ids, f) == Sum(pages, ids[..k] + ids[k + 1..], f) + Sum(pages, [ids[k]], f)
  {
    hide Sum;
    var a, b := ids[..k], ids[k + 1..];
    assert ids == a + [ids[k]] + b;
    SumConcat(pages, a + [ids[k]], b, f);
    SumConcat(pages, a, [ids[k]], f);
    SumConcat(pages, a, b, f);
  }

  lemma FirstIn(ids: seq<nat>)
    requires ids != []
    ensures exists id: nat :: id in ids
  {
    assert ids[0] in ids;
  }

  lemma NothingBelowZero(ids: seq<nat>)
    requires forall id: nat :: id in ids ==> id < 0
    ensures ids == []
  {
    if ids != [] {
      FirstIn(ids);
    }
  }

  lemma SplitAround(ids: seq<nat>, k: nat, n: nat)
    requires n > 0 && k < |ids| && ids[k] == n - 1 && (forall id: nat :: id in ids <==> id < n)
    requires forall i, j :: 0 <= i < j < |ids| ==> ids[i] != ids[j]
    ensures var rest := ids[..k] + ids[k + 1..];
            && (forall id: nat :: id in rest <==> id < n - 1)
            && (forall i, j :: 0 <= i < j < |rest| ==> rest[i] != rest[j])
  {
    var rest := ids[..k] + ids[k + 1..];
    forall id: nat | id < n - 1
      ensures id in rest
    {
      assert id in ids;
      var i :| 0 <= i < |ids| && ids[i] == id;
      assert rest[if i < k then i else i - 1] == id;
    }
    forall i | 0 <= i < |rest|
      ensures rest[i] < n - 1
    {
      assert ids[if i < k then i else i + 1] in ids;
    }
  }

  ghost predicate Among(bs: seq<seq<nat>>, id: nat) {
    exists i, k :: 0 <= i < |bs| && 0 <= k < |bs[i]| && bs[i][k] == id
  }

  lemma AmongLast(bs: seq<seq<nat>>, id: nat)
    requires bs != []
    ensures Among(bs, id) <==> Among(bs[..|bs| - 1], id) || id in bs[|bs| - 1]
  {
    var front, last := bs[..|bs| - 1], bs[|bs| - 1];
    if Among(front, id) {
      var i, k :| 0 <= i < |front| && 0 <= k < |front[i]| && front[i][k] == id;
      assert bs[i][k] == id;
    }
    if id in last {
      var k :| 0 <= k < |last| && last[k] == id;
      assert bs[|bs| - 1][k] == id;
    }
    if Among(bs, id) {
      var i, k :| 0 <= i < |bs| && 0 <= k < |bs[i]| && bs[i][k] == id;
      assert i < |bs| - 1 ==> front[i][k] == id;
    }
  }

  lemma {:induction false} FlatMembers(bs: seq<seq<nat>>, id: nat)
    ensures id in Flatten(bs) <==> Among(bs, id)
  {
    if bs != [] {
      FlatMembers(bs[..|bs| - 1], id);
      AmongLast(bs, id);
      hide Among;
    }
  }

  lemma {:induction false} FlatOnce(bs: seq<seq<nat>>)
    requires forall i, k, j, l :: 0 <= i < |bs| && 0 <= j < |bs| && 0 <= k < |bs[i]| && 0 <= l < |bs[j]| && bs[i][k] == bs[j][l] ==> i == j && k == l
    ensures forall j, k :: 0 <= j < k < |Flatten(bs)| ==> Flatten(bs)[j] != Flatten(bs)[k]
  {
    if bs != [] {
      var front, last := bs[..|bs| - 1], bs[|bs| - 1];
      FlatOnce(front);
      forall x: nat | x in Flatten(front)
        ensures x !in last
      {
        FlatMembers(front, x);
        assert Among(front, x);
        var i, k :| 0 <= i < |front| && 0 <= k < |front[i]| && front[i][k] == x;
        assert bs[i][k] == x;
      }
      forall j, k | 0 <= j < k < |Flatten(bs)|
        ensures Flatten(bs)[j] != Flatten(bs)[k]
      {
        if j < |Flatten(front)| {
          assert Flatten(front)[j] in Flatten(front);
        }
      }
    }
  }

  /** The sums along the chains are those over all pages of the file: dead bytes stay within thirty percent. */
  lemma WasteIs(F: File)
    requires StructureOk(F)
    ensures SumAll(F.pages, F.buckets, Dead) == DeadBytes(F.pages, F.pageCount)
    ensures SumAll(F.pages, F.buckets, Used) == UsedBytes(F.pages, F.pageCount)
    ensures WasteOk(F) <==> DeadBytes(F.pages, F.pageCount) * 100 <= UsedBytes(F.pages, F.pageCount) * 30
  {
    hide Linked, Sum, SumAll, Dead, Used, BodyOk, Flatten, Among;
    var ids := Flatten(F.buckets);
    SumFlat(F.pages, F.buckets, Dead);
    SumFlat(F.pages, F.buckets, Used);
    forall id: nat
      ensures id in ids <==> id < F.pageCount
    {
      FlatMembers(F.buckets, id);
      PageOnce(F, id);
    }
    ChainsApart(F);
    FlatOnce(F.buckets);
    SumInAnyOrder(F.pages, ids, F.pageCount, Dead);
    SumInAnyOrder(F.pages, ids, F.pageCount, Used);
    SumOfNumbers(F.pages, F.pageCount);
  }

  lemma PageOnce(F: File, id: nat)
    requires StructureOk(F)
    ensures id < F.pageCount <==> Among(F.buckets, id)
  {
    if id < F.pageCount {
      assert BodyOk(F, id);
      var i: nat, k: nat :| At(F, id, i, k);
      assert F.buckets[i][k] == id;
    }
    if i, k :| 0 <= i < |F.buckets| && 0 <= k < |F.buckets[i]| && F.buckets[i][k] == id {
      assert Linked(F, i, k);
    }
  }

  lemma ChainsApart(F: File)
    requires StructureOk(F)
    ensures forall i, k, j, l ::
              0 <= i < |F.buckets| && 0 <= j < |F.buckets| && 0 <= k < |F.buckets[i]| && 0 <= l < |F.buckets[j]| && F.buckets[i][k] == F.buckets[j][l] ==>
                i == j && k == l
  {
    hide Linked, BodyOk;
    forall i, k, j, l | 0 <= i < |F.buckets| && 0 <= j < |F.buckets| && 0 <= k < |F.buckets[i]| && 0 <= l < |F.buckets[j]|
      && F.buckets[i][k] == F.buckets[j][l]
      ensures i == j && k == l
    {
      assert At(F, F.buckets[i][k], i, k) && At(F, F.buckets[i][k], j, l);
    }
  }

  ghost predicate Inv(F: File) {
    StructureOk(F) && OrderOk(F) && WasteOk(F)
  }

  // ----- the metadata kept in memory -----

  /** v is the largest key of the set, nothing for an empty one. */
  ghost predicate IsMax(keys: set<Key>, v: Option<Key>) {
    match v
    case None => keys == {}
    case Some(m) => m in keys && forall x :: x in keys ==> x <= m
  }

  datatype Meta = Meta(maxKey: map<nat, Option<Key>>, mainNext: map<nat, Option<nat>>, owner: map<nat, nat>)

  ghost predicate MetaAt(F: File, m: Meta, i: nat)
    requires i < |F.buckets| && F.buckets[i] != []
  {
    var main := F.buckets[i][0];
    && main in m.maxKey && IsMax(Keys(F, i), m.maxKey[main])
    && main in m.mainNext && m.mainNext[main] == MainAfter(F, i)
    && forall k :: 0 <= k < |F.buckets[i]| ==> F.buckets[i][k] in m.owner && m.owner[F.buckets[i][k]] == main
  }

  /** The main page of one of the first n buckets. */
  ghost predicate IsMain(F: File, id: nat, n: nat) {
    exists i: nat :: i < n && i < |F.buckets| && F.buckets[i] != [] && F.buckets[i][0] == id
  }

  /** A page of one of the first n buckets. */
  ghost predicate IsMember(F: File, id: nat, n: nat) {
    exists i: nat, k: nat :: i < n && At(F, id, i, k)
  }

  /** The metadata of the first n buckets. */
  ghost predicate MetaUpTo(F: File, m: Meta, n: nat)
    requires n <= |F.buckets|
  {
    && (forall i :: 0 <= i < n ==> F.buckets[i] != [])
    && (forall i {:trigger MetaAt(F, m, i)} :: 0 <= i < n ==> MetaAt(F, m, i))
    && m.maxKey.Keys == m.mainNext.Keys
    && (forall id {:trigger IsMain(F, id, n)} :: id in m.maxKey ==> IsMain(F, id, n))
    && (forall id {:trigger IsMember(F, id, n)} :: id in m.owner ==> IsMember(F, id, n))
  }

  ghost predicate MetaOk(F: File, m: Meta) {
    MetaUpTo(F, m, |F.buckets|)
  }

  /** There is one right value for the metadata, so what is kept is what reopening rebuilds. */
  lemma MetaUnique(F: File, a: Meta, b: Meta)
    requires StructureOk(F) && MetaOk(F, a) && MetaOk(F, b)
    ensures a == b
  {
    hide Keys, Linked, BodyOk;
    forall id | id in a.maxKey
      ensures id in b.maxKey && a.maxKey[id] == b.maxKey[id] && a.mainNext[id] == b.mainNext[id]
    {
      assert IsMain(F, id, |F.buckets|);
      var i: nat :| i < |F.buckets| && F.buckets[i][0] == id;
      assert MetaAt(F, a, i) && MetaAt(F, b, i);
    }
    forall id | id in a.owner
      ensures id in b.owner && a.owner[id] == b.owner[id]
    {
      assert IsMember(F, id, |F.buckets|);
      var i: nat, k: nat :| i < |F.buckets| && At(F, id, i, k);
      assert MetaAt(F, a, i) && MetaAt(F, b, i);
    }
    MetaCovered(F, b, a);
    assert a.maxKey.Keys == b.maxKey.Keys && a.owner.Keys == b.owner.Keys;
    assert a.maxKey == b.maxKey && a.owner == b.owner;
    assert a.mainNext == b.mainNext;
  }

  lemma MetaCovered(F: File, a: Meta, b: Meta)
    requires StructureOk(F) && MetaOk(F, a) && MetaOk(F, b)
    ensures a.maxKey.Keys <= b.maxKey.Keys && a.owner.Keys <= b.owner.Keys
  {
    hide Keys, Linked, BodyOk, IsMax;
    forall id | id in a.maxKey
      ensures id in b.maxKey
    {
      assert IsMain(F, id, |F.buckets|);
      var i: nat :| i < |F.buckets| && F.buckets[i][0] == id;
      assert MetaAt(F, b, i);
    }
    forall id | id in a.owner
      ensures id in b.owner
    {
      assert IsMember(F, id, |F.buckets|);
      var i: nat, k: nat :| i < |F.buckets| && At(F, id, i, k);
      assert MetaAt(F, b, i);
    }
  }

  // ----- frames -----

  lemma {:induction false} KeysFrame(F: File, F': File, ids: seq<nat>)
    requires forall k :: 0 <= k < |ids| ==> KeysAt(F, ids[k]) == KeysAt(F', ids[k])
    ensures KeysOfPages(F, ids) == KeysOfPages(F', ids)
  {
    if ids != [] {
      KeysFrame(F, F', ids[..|ids| - 1]);
    }
  }

  lemma {:induction false} KeysInPages(F: File, ids: seq<nat>, x: Key)
    ensures x in KeysOfPages(F, ids) <==> exists k :: 0 <= k < |ids| && x in KeysAt(F, ids[k])
  {
    if ids != [] {
      KeysInPages(F, ids[..|ids| - 1], x);
      if x in KeysOfPages(F, ids[..|ids| - 1]) {
        var k :| 0 <= k < |ids| - 1 && x in KeysAt(F, ids[..|ids| - 1][k]);
        assert x in KeysAt(F, ids[k]);
      }
    }
  }

  /** If one page of a bucket changes its keys, the bucket changes accordingly. */
  lemma KeysChange(F: File, F': File, ids: seq<nat>, k: nat, added: set<Key>)
    requires k < |ids| && KeysAt(F', ids[k]) <= KeysAt(F, ids[k]) + added
    requires added <= KeysAt(F', ids[k])
    requires forall j :: 0 <= j < |ids| && j != k ==> KeysAt(F, ids[j]) == KeysAt(F', ids[j])
    ensures KeysOfPages(F', ids) <= KeysOfPages(F, ids) + added
    ensures KeysAt(F, ids[k]) <= KeysAt(F', ids[k]) ==> KeysOfPages(F', ids) == KeysOfPages(F, ids) + added
  {
    forall x
      ensures x in KeysOfPages(F', ids) ==> x in KeysOfPages(F, ids) || x in added
      ensures KeysAt(F, ids[k]) <= KeysAt(F', ids[k]) && (x in KeysOfPages(F, ids) || x in added) ==> x in KeysOfPages(F', ids)
    {
      KeysInPages(F, ids, x);
      KeysInPages(F', ids, x);
      if x in added {
        assert x in KeysAt(F', ids[k]);
      }
    }
  }

  lemma {:induction false} SumFrame(pages: map<nat, SeqPage>, pages': map<nat, SeqPage>, ids: seq<nat>, f: SeqPage -> int)
    requires forall k :: 0 <= k < |ids| ==> (ids[k] in pages <==> ids[k] in pages')
    requires forall k :: 0 <= k < |ids| && ids[k] in pages ==> f(pages[ids[k]]) == f(pages'[ids[k]])
    ensures Sum(pages, ids, f) == Sum(pages', ids, f)
  {
    if ids != [] {
      SumFrame(pages, pages', ids[..|ids| - 1], f);
    }
  }

  lemma {:induction false} SumChange(pages: map<nat, SeqPage>, pages': map<nat, SeqPage>, ids: seq<nat>, k: nat, f: SeqPage -> int)
    requires k < |ids| && ids[k] in pages && ids[k] in pages'
    requires forall j :: 0 <= j < |ids| && j != k ==> (ids[j] in pages <==> ids[j] in pages')
    requires forall j :: 0 <= j < |ids| && j != k && ids[j] in pages ==> f(pages[ids[j]]) == f(pages'[ids[j]])
    ensures Sum(pages', ids, f) == Sum(pages, ids, f) - f(pages[ids[k]]) + f(pages'[ids[k]])
  {
    if k == |ids| - 1 {
      SumFrame(pages, pages', ids[..k], f);
    } else {
      SumChange(pages, pages', ids[..|ids| - 1], k, f);
    }
  }

  lemma {:induction false} SumAllFrame(pages: map<nat, SeqPage>, pages': map<nat, SeqPage>, bs: seq<seq<nat>>, f: SeqPage -> int)
    requires forall j :: 0 <= j < |bs| ==> Sum(pages, bs[j], f) == Sum(pages', bs[j], f)
    ensures SumAll(pages, bs, f) == SumAll(pages', bs, f)
  {
    if bs != [] {
      SumAllFrame(pages, pages', bs[..|bs| - 1], f);
    }
  }

  lemma {:induction false} SumAllChange(pages: map<nat, SeqPage>, pages': map<nat, SeqPage>, bs: seq<seq<nat>>, i: nat, b: seq<nat>, f: SeqPage -> int)
    requires i < |bs|
    requires forall j :: 0 <= j < |bs| && j != i ==> Sum(pages, bs[j], f) == Sum(pages', bs[j], f)
    ensures SumAll(pages', bs[i := b], f) == SumAll(pages, bs, f) - Sum(pages, bs[i], f) + Sum(pages', b, f)
  {
    var front := bs[..|bs| - 1];
    if i == |bs| - 1 {
      assert bs[i := b][..|bs| - 1] == front;
      SumAllFrame(pages, pages', front, f);
    } else {
      assert bs[i := b][..|bs| - 1] == front[i := b];
      SumAllChange(pages, pages', front, i, b, f);
    }
  }

  // ----- changing the records of one page -----

  ghost predicate NewBody(F: File, i: nat, k: nat, body: Page, F': File) {
    && i < |F.buckets| && k < |F.buckets[i]| && F.buckets[i][k] in F.pages
    && F' == F.(pages := F.pages[F.buckets[i][k] := F.pages[F.buckets[i][k]].(body := body)])
  }

  lemma NewBodyStructure(F: File, i: nat, k: nat, body: Page, F': File)
    requires StructureOk(F) && NewBody(F, i, k, body, F') && Ok(body) && body.size == F.bodySize
    ensures StructureOk(F')
  {
    hide Ok;
    forall j, l | 0 <= j < |F'.buckets| && 0 <= l < |F'.buckets[j]|
      ensures Linked(F', j, l)
    {
      assert Linked(F, j, l);
    }
    forall id, j, l, j', l' | At(F', id, j, l) && At(F', id, j', l')
      ensures j == j' && l == l'
    {
      assert At(F, id, j, l) && At(F, id, j', l');
    }
    assert F'.pages.Keys == F.pages.Keys by {
      assert Linked(F, i, k);
    }
    forall id | id in F'.pages
      ensures BodyOk(F', id) && exists j, l :: At(F', id, j, l)
    {
      assert BodyOk(F, id);
      var j, l :| At(F, id, j, l);
      assert At(F', id, j, l);
    }
  }

  /** Only bucket i can have other keys afterwards. */
  lemma NewBodyKeys(F: File, i: nat, k: nat, body: Page, F': File, added: set<Key>)
    requires StructureOk(F) && NewBody(F, i, k, body, F')
    requires added <= PageKeys(F.keyOf, body) <= KeysAt(F, F.buckets[i][k]) + added
    ensures forall j :: 0 <= j < |F.buckets| && j != i ==> Keys(F', j) == Keys(F, j)
    ensures Keys(F', i) <= Keys(F, i) + added
    ensures KeysAt(F, F.buckets[i][k]) <= PageKeys(F.keyOf, body) ==> Keys(F', i) == Keys(F, i) + added
  {
    hide PageKeys, KeysOfPages;
    forall j | 0 <= j < |F.buckets| && j != i
      ensures Keys(F', j) == Keys(F, j)
    {
      forall l | 0 <= l < |F.buckets[j]|
        ensures KeysAt(F', F.buckets[j][l]) == KeysAt(F, F.buckets[j][l])
      {
        assert At(F, F.buckets[j][l], j, l) && At(F, F.buckets[i][k], i, k);
      }
      KeysFrame(F, F', F.buckets[j]);
    }
    forall l | 0 <= l < |F.buckets[i]| && l != k
      ensures KeysAt(F', F.buckets[i][l]) == KeysAt(F, F.buckets[i][l])
    {
      assert At(F, F.buckets[i][l], i, l) && At(F, F.buckets[i][k], i, k);
    }
    KeysChange(F, F', F.buckets[i], k, added);
  }

  lemma NewBodySums(F: File, i: nat, k: nat, body: Page, F': File, f: SeqPage -> int)
    requires StructureOk(F) && NewBody(F, i, k, body, F')
    ensures SumAll(F'.pages, F'.buckets, f) ==
            SumAll(F.pages, F.buckets, f) - f(F.pages[F.buckets[i][k]]) + f(F'.pages[F.buckets[i][k]])
  {
    hide Sum, SumAll;
    var id := F.buckets[i][k];
    forall j | 0 <= j < |F.buckets| && j != i
      ensures Sum(F.pages, F.buckets[j], f) == Sum(F'.pages, F.buckets[j], f)
    {
      forall l | 0 <= l < |F.buckets[j]|
        ensures F.buckets[j][l] != id
      {
        assert At(F, F.buckets[j][l], j, l) && At(F, id, i, k);
      }
      SumFrame(F.pages, F'.pages, F.buckets[j], f);
    }
    forall l | 0 <= l < |F.buckets[i]| && l != k
      ensures F.buckets[i][l] != id
    {
      assert At(F, F.buckets[i][l], i, l) && At(F, id, i, k);
    }
    SumChange(F.pages, F'.pages, F.buckets[i], k, f);
    SumAllChange(F.pages, F'.pages, F.buckets, i, F.buckets[i], f);
    assert F.buckets[i := F.buckets[i]] == F.buckets;
  }

  // ----- where a key belongs -----

  /** Bucket i may take the key: smaller keys only before it, larger keys only behind it. */
  ghost predicate Target(F: File, i: nat, key: Key) {
    && i < |F.buckets|
    && (forall j, x :: 0 <= j < i && x in Keys(F, j) ==> x < key)
    && (forall j, x :: i < j < |F.buckets| && x in Keys(F, j) ==> key < x)
  }

  lemma OrderKept(F: File, F': File, i: nat, added: set<Key>)
    requires OrderOk(F) && |F'.buckets| == |F.buckets| && i < |F.buckets|
    requires forall j :: 0 <= j < |F.buckets| && j != i ==> Keys(F', j) == Keys(F, j)
    requires Keys(F', i) <= Keys(F, i) + added
    requires forall x :: x in added ==> Target(F, i, x)
    ensures OrderOk(F')
  {
    hide Keys;
    forall a, b, x, y | 0 <= a < b < |F'.buckets| && x in Keys(F', a) && y in Keys(F', b)
      ensures x < y
    {
      if a == i {
        assert x in Keys(F, i) || x in added;
      } else if b == i {
        assert y in Keys(F, i) || y in added;
      }
    }
  }

  /** A body is exchanged: `added` at most one key that belongs there, dead bytes only shrink with the used ones. */
  lemma NewBodyKeepsInv(F: File, i: nat, k: nat, body: Page, F': File, added: set<Key>)
    requires Inv(F) && NewBody(F, i, k, body, F') && Ok(body) && body.size == F.bodySize
    requires added <= PageKeys(F.keyOf, body) <= KeysAt(F, F.buckets[i][k]) + added
    requires forall x :: x in added ==> Target(F, i, x)
    requires 0 <= Reclaimable(F.pages[F.buckets[i][k]].body) - Reclaimable(body)
    requires Reclaimable(F.pages[F.buckets[i][k]].body) - Reclaimable(body)
             >= Occupied(F.pages[F.buckets[i][k]].body) - Occupied(body)
    ensures Inv(F')
  {
    NewBodyStructure(F, i, k, body, F');
    NewBodyKeys(F, i, k, body, F', added);
    OrderKept(F, F', i, added);
    NewBodySums(F, i, k, body, F', Dead);
    NewBodySums(F, i, k, body, F', Used);
  }

  // ----- new pages -----

  lemma NotAt(F: File, id: nat)
    requires StructureOk(F) && id !in F.pages
    ensures forall j: nat, l: nat {:trigger At(F, id, j, l)} :: !At(F, id, j, l)
  {
    forall j: nat, l: nat | j < |F.buckets| && l < |F.buckets[j]|
      ensures F.buckets[j][l] != id
    {
      assert Linked(F, j, l);
    }
  }

  function FreshPage(isMain: bool, body: Page): SeqPage {
    SeqPage(isMain, None, None, body)
  }

  /** A new overflow page behind the last page of bucket i. */
  ghost predicate NewOverflow(F: File, i: nat, id: nat, body: Page, F': File) {
    && i < |F.buckets| && F.buckets[i] != []
    && (var last := F.buckets[i][|F.buckets[i]| - 1];
        && last in F.pages
        && F' == F.(pages := F.pages[id := FreshPage(false, body)]
                               [last := if |F.buckets[i]| == 1 then F.pages[last].(firstOverflow := Some(id))
                                        else F.pages[last].(next := Some(id))],
                    pageCount := F.pageCount + 1,
                    buckets := F.buckets[i := F.buckets[i] + [id]]))
  }

  lemma NewOverflowStructure(F: File, i: nat, id: nat, body: Page, F': File)
    requires StructureOk(F) && NewOverflow(F, i, id, body, F') && id == F.pageCount && Ok(body) && body.size == F.bodySize
    ensures StructureOk(F')
  {
    hide Ok;
    var n := |F.buckets[i]|;
    assert Linked(F, i, n - 1);
    NotAt(F, id);
    forall x: nat, j: nat, l: nat | At(F', x, j, l)
      ensures x != id ==> At(F, x, j, l)
      ensures x == id ==> j == i && l == n
    {
      if j != i || l < n {
        assert At(F, x, j, l);
      }
    }
    forall j, l | 0 <= j < |F'.buckets| && 0 <= l < |F'.buckets[j]|
      ensures Linked(F', j, l)
    {
      if j != i || l < n {
        assert Linked(F, j, l);
        assert At(F, F.buckets[j][l], j, l) && At(F, F.buckets[i][n - 1], i, n - 1);
      }
    }
    forall x, j, l, j', l' | At(F', x, j, l) && At(F', x, j', l')
      ensures j == j' && l == l'
    {
      if x != id {
        assert At(F, x, j, l) && At(F, x, j', l');
      }
    }
    assert At(F', id, i, n);
    forall x | x in F'.pages
      ensures BodyOk(F', x) && exists j, l :: At(F', x, j, l)
    {
      if x != id {
        assert BodyOk(F, x);
        var j, l :| At(F, x, j, l);
        assert At(F', x, j, l);
      }
    }
  }

  lemma NewOverflowKeys(F: File, i: nat, id: nat, body: Page, F': File)
    requires StructureOk(F) && NewOverflow(F, i, id, body, F') && id == F.pageCount
    ensures forall j :: 0 <= j < |F.buckets| && j != i ==> Keys(F', j) == Keys(F, j)
    ensures Keys(F', i) == Keys(F, i) + PageKeys(F.keyOf, body)
  {
    hide PageKeys, KeysOfPages;
    forall j | 0 <= j < |F.buckets|
      ensures KeysOfPages(F', F.buckets[j]) == KeysOfPages(F, F.buckets[j])
    {
      forall l | 0 <= l < |F.buckets[j]|
        ensures KeysAt(F', F.buckets[j][l]) == KeysAt(F, F.buckets[j][l])
      {
        assert Linked(F, j, l);
      }
      KeysFrame(F, F', F.buckets[j]);
    }
    KeysAppend(F', F.buckets[i], id);
  }

  lemma KeysAppend(F: File, ids: seq<nat>, id: nat)
    ensures KeysOfPages(F, ids + [id]) == KeysOfPages(F, ids) + KeysAt(F, id)
  {
    assert (ids + [id])[..|ids|] == ids;
  }

  lemma SumAppend(pages: map<nat, SeqPage>, ids: seq<nat>, id: nat, f: SeqPage -> int)
    requires id in pages
    ensures Sum(pages, ids + [id], f) == Sum(pages, ids, f) + f(pages[id])
  {
    assert (ids + [id])[..|ids|] == ids;
  }

  lemma NewOverflowSums(F: File, i: nat, id: nat, body: Page, F': File, f: SeqPage -> int)
    requires StructureOk(F) && NewOverflow(F, i, id, body, F') && id == F.pageCount
    requires forall p: SeqPage, q: SeqPage :: p.body == q.body ==> f(p) == f(q)
    ensures SumAll(F'.pages, F'.buckets, f) == SumAll(F.pages, F.buckets, f) + f(FreshPage(false, body))
  {
    hide Sum, SumAll;
    forall j | 0 <= j < |F.buckets|
      ensures Sum(F.pages, F.buckets[j], f) == Sum(F'.pages, F.buckets[j], f)
    {
      forall l | 0 <= l < |F.buckets[j]|
        ensures F.buckets[j][l] in F.pages && F.buckets[j][l] != id
      {
        assert Linked(F, j, l);
      }
      SumFrame(F.pages, F'.pages, F.buckets[j], f);
    }
    assert Linked(F, i, |F.buckets[i]| - 1);
    SumAppend(F'.pages, F.buckets[i], id, f);
    SumAllChange(F.pages, F'.pages, F.buckets, i, F.buckets[i] + [id], f);
  }

  lemma NewOverflowKeepsInv(F: File, i: nat, id: nat, body: Page, F': File)
    requires Inv(F) && NewOverflow(F, i, id, body, F') && id == F.pageCount && Ok(body) && body.size == F.bodySize
    requires forall x :: x in PageKeys(F.keyOf, body) ==> Target(F, i, x)
    requires Reclaimable(body) == 0 && Occupied(body) >= 0
    ensures Inv(F')
  {
    NewOverflowStructure(F, i, id, body, F');
    NewOverflowKeys(F, i, id, body, F');
    OrderKept(F, F', i, PageKeys(F.keyOf, body));
    NewOverflowSums(F, i, id, body, F', Dead);
    NewOverflowSums(F, i, id, body, F', Used);
  }

  /** A new main page behind the last one: a new bucket. */
  ghost predicate NewBucket(F: File, id: nat, body: Page, F': File) {
    && F.buckets != [] && F.buckets[|F.buckets| - 1] != []
    && (var last := F.buckets[|F.buckets| - 1][0];
        && last in F.pages
        && F' == F.(pages := F.pages[id := FreshPage(true, body)][last := F.pages[last].(next := Some(id))],
                    pageCount := F.pageCount + 1,
                    buckets := F.buckets + [[id]]))
  }

  lemma NewBucketStructure(F: File, id: nat, body: Page, F': File)
    requires StructureOk(F) && NewBucket(F, id, body, F') && id == F.pageCount && Ok(body) && body.size == F.bodySize
    ensures StructureOk(F')
  {
    hide Ok;
    var n := |F.buckets|;
    assert Linked(F, n - 1, 0);
    NotAt(F, id);
    forall x: nat, j: nat, l: nat | At(F', x, j, l)
      ensures x != id ==> At(F, x, j, l)
      ensures x == id ==> j == n && l == 0
    {
      if j < n {
        assert At(F, x, j, l);
      }
    }
    forall j, l | 0 <= j < |F'.buckets| && 0 <= l < |F'.buckets[j]|
      ensures Linked(F', j, l)
    {
      if j < n {
        assert Linked(F, j, l);
        assert At(F, F.buckets[j][l], j, l) && At(F, F.buckets[n - 1][0], n - 1, 0);
      }
    }
    forall x, j, l, j', l' | At(F', x, j, l) && At(F', x, j', l')
      ensures j == j' && l == l'
    {
      if x != id {
        assert At(F, x, j, l) && At(F, x, j', l');
      }
    }
    assert At(F', id, n, 0);
    forall x | x in F'.pages
      ensures BodyOk(F', x) && exists j, l :: At(F', x, j, l)
    {
      if x != id {
        assert BodyOk(F, x);
        var j, l :| At(F, x, j, l);
        assert At(F', x, j, l);
      }
    }
  }

  lemma NewBucketKeys(F: File, id: nat, body: Page, F': File)
    requires StructureOk(F) && NewBucket(F, id, body, F') && id == F.pageCount
    ensures forall j :: 0 <= j < |F.buckets| ==> Keys(F', j) == Keys(F, j)
    ensures Keys(F', |F.buckets|) == PageKeys(F.keyOf, body)
  {
    hide PageKeys;
    forall j | 0 <= j < |F.buckets|
      ensures Keys(F', j) == Keys(F, j)
    {
      forall l | 0 <= l < |F.buckets[j]|
        ensures KeysAt(F', F.buckets[j][l]) == KeysAt(F, F.buckets[j][l])
      {
        assert Linked(F, j, l);
      }
      KeysFrame(F, F', F.buckets[j]);
    }
    assert [id][..0] == [];
    assert Linked(F, |F.buckets| - 1, 0);
    assert KeysOfPages(F', [id]) == KeysOfPages(F', []) + KeysAt(F', id);
  }

  lemma NewBucketSums(F: File, id: nat, body: Page, F': File, f: SeqPage -> int)
    requires StructureOk(F) && NewBucket(F, id, body, F') && id == F.pageCount
    requires forall p: SeqPage, q: SeqPage :: p.body == q.body ==> f(p) == f(q)
    ensures SumAll(F'.pages, F'.buckets, f) == SumAll(F.pages, F.buckets, f) + f(FreshPage(true, body))
  {
    forall j | 0 <= j < |F.buckets|
      ensures Sum(F.pages, F.buckets[j], f) == Sum(F'.pages, F.buckets[j], f)
    {
      forall l | 0 <= l < |F.buckets[j]|
        ensures F.buckets[j][l] in F.pages && F.buckets[j][l] != id
      {
        assert Linked(F, j, l);
      }
      SumFrame(F.pages, F'.pages, F.buckets[j], f);
    }
    SumAllFrame(F.pages, F'.pages, F.buckets, f);
    assert Linked(F, |F.buckets| - 1, 0);
    SumAllAppend(F'.pages, F.buckets, [id], f);
    SumAppend(F'.pages, [], id, f);
    assert [] + [id] == [id];
  }

  lemma SumAllAppend(pages: map<nat, SeqPage>, bs: seq<seq<nat>>, b: seq<nat>, f: SeqPage -> int)
    ensures SumAll(pages, bs + [b], f) == SumAll(pages, bs, f) + Sum(pages, b, f)
  {
    assert (bs + [b])[..|bs|] == bs;
  }

  lemma NewBucketKeepsInv(F: File, id: nat, body: Page, F': File)
    requires Inv(F) && NewBucket(F, id, body, F') && id == F.pageCount && Ok(body) && body.size == F.bodySize
    requires forall j, x, y :: 0 <= j < |F.buckets| && x in Keys(F, j) && y in PageKeys(F.keyOf, body) ==> x < y
    requires Reclaimable(body) == 0 && Occupied(body) >= 0
    ensures Inv(F')
  {
    NewBucketStructure(F, id, body, F');
    NewBucketKeys(F, id, body, F');
    NewBucketSums(F, id, body, F', Dead);
    NewBucketSums(F, id, body, F', Used);
    hide Keys, PageKeys, SumAll;
    forall a, b, x, y | 0 <= a < b < |F'.buckets| && x in Keys(F', a) && y in Keys(F', b)
      ensures x < y
    {
      if b == |F.buckets| {
        assert y in PageKeys(F.keyOf, body) && x in Keys(F, a);
      }
    }
  }
}
