/**
 The sequential file: records in key order, RIDs that never change (engine/storage/sequential_file.py).

 A record goes to the first bucket whose largest key is not below its own, on the main page if
 that has room, possibly after compaction, else on the first overflow page that takes it, else
 on a new overflow page. A key above all others opens a new bucket when the last main page is
 full. Nothing ever moves to another page or slot, so a RID keeps fetching its record. Removing
 a record leaves dead bytes behind; when they exceed 30 percent of what is occupied, every page
 is compacted. Compaction on the way of an insert wins back dead and occupied bytes alike, so
 it never worsens the ratio. The fields maxKey, mainNext and owner repeat in memory what the
 pages say, and reopening the file would rebuild exactly them.
 The first part of this file shows what an operation does to the metadata, the class holds the
 operations themselves, and what follows it are the steps of their proofs.
 */
module SequentialFiles {
  import opened Common
  import opened SlottedPages
  import opened SequentialInvariant
  import opened Records
  import opened RidSupply

  /** The slotted part of every page, where the records are. */
  function Bodies(pages: map<nat, SeqPage>): map<nat, Page> {
    map p | p in pages :: pages[p].body
  }

  /** Every page has the slots it had. */
  ghost predicate SameSlots(before: map<nat, SeqPage>, after: map<nat, SeqPage>) {
    before.Keys == after.Keys && forall p :: p in before ==> after[p].body.slots == before[p].body.slots
  }

  /** The page takes the record: its bytes and a slot fit beside the header, the slots and the live records. */
  predicate RoomOn(pages: map<nat, SeqPage>, id: nat, size: nat) {
    id in pages && size + 4 <= Capacity(pages[id].body)
  }

  /** The first of these pages that takes the record. */
  ghost predicate FirstWithRoom(pages: map<nat, SeqPage>, ids: seq<nat>, size: nat, page: int) {
    exists k :: 0 <= k < |ids| && ids[k] == page && RoomOn(pages, ids[k], size) && forall l :: 0 <= l < k ==> !RoomOn(pages, ids[l], size)
  }

  ghost predicate NoneWithRoom(pages: map<nat, SeqPage>, ids: seq<nat>, size: nat) {
    forall k :: 0 <= k < |ids| ==> !RoomOn(pages, ids[k], size)
  }

  /** Some key of the bucket is not below this one. */
  ghost predicate Reaches(F: File, i: nat, key: Key)
    requires i < |F.buckets|
  {
    exists x :: x in Keys(F, i) && x >= key
  }

  /** Bucket i is the first that reaches the key, or the last one when none does. */
  ghost predicate BucketFor(F: File, i: nat, key: Key) {
    && i < |F.buckets| && (forall j :: 0 <= j < i ==> !Reaches(F, j, key))
    && (Reaches(F, i, key) || i == |F.buckets| - 1)
  }

  /**
   Where a record goes: to the first page of the bucket for its key that takes it. If none does it goes
   to a new page at the end of the bucket. A key above all others only tries the main page of the last
   bucket, and then opens a bucket.
   */
  ghost predicate GoesTo(F: File, i: nat, key: Key, size: nat, page: int, after: seq<seq<nat>>) {
    && BucketFor(F, i, key) && F.buckets[i] != []
    && var tried := if Reaches(F, i, key) then F.buckets[i] else F.buckets[i][..1];
       if NoneWithRoom(F.pages, tried, size)
       then page == F.pageCount && after == if Reaches(F, i, key) then F.buckets[i := F.buckets[i] + [F.pageCount]] else F.buckets + [[F.pageCount]]
       else after == F.buckets && FirstWithRoom(F.pages, tried, size, page)
  }

  /** Room depends on the slots alone, so a failed try changes it nowhere. */
  lemma SameRoom(F: File, F': File, size: nat)
    requires StructureOk(F) && StructureOk(F') && F.bodySize == F'.bodySize && SameSlots(F.pages, F'.pages)
    ensures forall id :: RoomOn(F'.pages, id, size) <==> RoomOn(F.pages, id, size)
  {
    hide LiveBytes, Linked;
    forall id: nat | id in F.pages
      ensures Capacity(F'.pages[id].body) == Capacity(F.pages[id].body)
    {
      assert BodyOk(F, id) && BodyOk(F', id);
    }
  }

  /** Insert directly, else after compaction if that can win anything; a failed try may leave the page compacted. */
  method TryInsert(p: Page, data: seq<Byte>) returns (q: Page, done: bool)
    requires Ok(p)
    ensures Ok(q) && q.size == p.size
    ensures q.slots == if done then p.slots + [Some(data)] else p.slots
    ensures done <==> |data| + SLOT_SIZE <= Capacity(p)
    ensures 0 <= Reclaimable(p) - Reclaimable(q) && Reclaimable(p) - Reclaimable(q) >= Occupied(p) - Occupied(q)
  {
    if HasRoom(p, data) {
      InsertIs(p, data);
      return Insert(p, data), true;
    }
    if Reclaimable(p) > 0 {
      CompactIs(p);
      q := Compact(p);
      if HasRoom(q, data) {
        InsertIs(q, data);
        return Insert(q, data), true;
      }
      return q, false;
    }
    return p, false;
  }

  lemma PageKeysAppend(keyOf: seq<Byte> -> Key, p: Page, q: Page, data: seq<Byte>)
    requires q.slots == p.slots + [Some(data)]
    ensures PageKeys(keyOf, q) == PageKeys(keyOf, p) + {keyOf(data)}
  {
    assert q.slots[|p.slots|] == Some(data);
    forall x | x in PageKeys(keyOf, p)
      ensures x in PageKeys(keyOf, q)
    {
      var s :| 0 <= s < |p.slots| && p.slots[s].Some? && keyOf(p.slots[s].value) == x;
      assert q.slots[s] == p.slots[s];
    }
  }

  lemma PageKeysDelete(keyOf: seq<Byte> -> Key, p: Page, slot: int)
    ensures PageKeys(keyOf, Delete(p, slot)) <= PageKeys(keyOf, p)
  {
  }

  function Larger(v: Option<Key>, key: Key): Option<Key> {
    if v.None? || v.value < key then Some(key) else v
  }

  lemma LargerIsMax(keys: set<Key>, v: Option<Key>, key: Key)
    requires IsMax(keys, v)
    ensures IsMax(keys + {key}, Larger(v, key))
  {
  }

  // ----- the metadata after a change -----

  /** One bucket changed its largest key and perhaps got one more page. */
  ghost predicate MetaChange(F: File, m: Meta, F': File, m': Meta, i: nat, more: Option<nat>) {
    && StructureOk(F) && MetaOk(F, m) && i < |F.buckets|
    && F'.buckets == F.buckets[i := F.buckets[i] + if more.Some? then [more.value] else []]
    && (forall j :: 0 <= j < |F.buckets| && j != i ==> Keys(F', j) == Keys(F, j))
    && F.buckets[i][0] in m'.maxKey && IsMax(Keys(F', i), m'.maxKey[F.buckets[i][0]])
    && m'.maxKey == m.maxKey[F.buckets[i][0] := m'.maxKey[F.buckets[i][0]]] && m'.mainNext == m.mainNext
    && m'.owner == (if more.Some? then m.owner[more.value := F.buckets[i][0]] else m.owner)
    && (more.Some? ==> more.value !in F.pages)
  }

  lemma MetaAfterChange(F: File, m: Meta, F': File, m': Meta, i: nat, more: Option<nat>)
    requires MetaChange(F, m, F', m', i, more)
    ensures MetaOk(F', m')
  {
    forall j | 0 <= j < |F'.buckets|
      ensures F'.buckets[j] != [] && MetaAt(F', m', j)
    {
      MetaAtAfterChange(F, m, F', m', i, more, j);
    }
    hide Keys, IsMax, Linked, BodyOk, StructureOk, MetaAt, IsMain, IsMember;
    forall id | id in m'.maxKey
      ensures IsMain(F', id, |F'.buckets|)
    {
      MainStays(F, m, F', m', i, more, id);
    }
    forall id | id in m'.owner
      ensures IsMember(F', id, |F'.buckets|)
    {
      OwnerStays(F, m, F', m', i, more, id);
    }
    MainKeysStay(F, m, F', m', i, more);
  }

  lemma MainKeysStay(F: File, m: Meta, F': File, m': Meta, i: nat, more: Option<nat>)
    requires MetaChange(F, m, F', m', i, more)
    ensures m'.maxKey.Keys == m'.mainNext.Keys
  {
    assert MetaAt(F, m, i);
  }

  lemma MainStays(F: File, m: Meta, F': File, m': Meta, i: nat, more: Option<nat>, id: nat)
    requires MetaChange(F, m, F', m', i, more) && id in m'.maxKey
    ensures IsMain(F', id, |F'.buckets|)
  {
    hide Keys, IsMax, Linked, BodyOk;
    assert MetaAt(F, m, i);
    assert IsMain(F, id, |F.buckets|);
    var j: nat :| j < |F.buckets| && F.buckets[j][0] == id;
    assert F'.buckets[j][0] == id;
  }

  lemma OwnerStays(F: File, m: Meta, F': File, m': Meta, i: nat, more: Option<nat>, id: nat)
    requires MetaChange(F, m, F', m', i, more) && id in m'.owner
    ensures IsMember(F', id, |F'.buckets|)
  {
    hide Keys, IsMax, Linked, BodyOk, MetaAt;
    if more.Some? && id == more.value {
      assert At(F', id, i, |F.buckets[i]|);
    } else {
      assert IsMember(F, id, |F.buckets|);
      var j: nat, k: nat :| j < |F.buckets| && At(F, id, j, k);
      assert At(F', id, j, k);
    }
  }

  lemma MetaAtAfterChange(F: File, m: Meta, F': File, m': Meta, i: nat, more: Option<nat>, j: nat)
    requires MetaChange(F, m, F', m', i, more) && j < |F.buckets|
    ensures F'.buckets[j] != [] && MetaAt(F', m', j)
  {
    hide Keys, IsMax, BodyOk;
    assert MetaAt(F, m, j);
    assert F'.buckets[j][0] == F.buckets[j][0];
    assert MainAfter(F', j) == MainAfter(F, j);
    if j != i {
      assert At(F, F.buckets[j][0], j, 0) && At(F, F.buckets[i][0], i, 0);
    }
    forall k | 0 <= k < |F'.buckets[j]|
      ensures F'.buckets[j][k] in m'.owner && m'.owner[F'.buckets[j][k]] == F'.buckets[j][0]
    {
      if k < |F.buckets[j]| && more.Some? {
        InPages(F, j, k);
      }
    }
  }

  lemma InPages(F: File, j: nat, k: nat)
    requires StructureOk(F) && j < |F.buckets| && k < |F.buckets[j]|
    ensures F.buckets[j][k] in F.pages && F.buckets[j][k] < F.pageCount
  {
    assert Linked(F, j, k);
  }

  /** A new bucket with one page and one record behind all others. */
  ghost predicate MetaNewBucket(F: File, m: Meta, F': File, m': Meta, id: nat, key: Key) {
    && StructureOk(F) && MetaOk(F, m) && id !in F.pages && |F.buckets| > 0 && F.buckets[|F.buckets| - 1] != []
    && F'.buckets == F.buckets + [[id]]
    && (forall j :: 0 <= j < |F.buckets| ==> Keys(F', j) == Keys(F, j))
    && Keys(F', |F.buckets|) == {key}
    && m'.maxKey == m.maxKey[id := Some(key)] && m'.owner == m.owner[id := id]
    && m'.mainNext == m.mainNext[id := None][F.buckets[|F.buckets| - 1][0] := Some(id)]
  }

  lemma MetaAfterNewBucket(F: File, m: Meta, F': File, m': Meta, id: nat, key: Key)
    requires MetaNewBucket(F, m, F', m', id, key)
    ensures MetaOk(F', m')
  {
    hide MetaNewBucket, MetaAt, IsMain, IsMember;
    forall j: nat | j < |F'.buckets|
      ensures F'.buckets[j] != [] && MetaAt(F', m', j)
    {
      MetaAtNewBucket(F, m, F', m', id, key, j);
    }
    forall x | x in m'.maxKey
      ensures IsMain(F', x, |F'.buckets|)
    {
      NewBucketCovers(F, m, F', m', id, key, x);
    }
    forall x | x in m'.owner
      ensures IsMember(F', x, |F'.buckets|)
    {
      NewBucketCovers(F, m, F', m', id, key, x);
    }
    NewBucketMains(F, m, F', m', id, key);
  }

  lemma NewBucketMains(F: File, m: Meta, F': File, m': Meta, id: nat, key: Key)
    requires MetaNewBucket(F, m, F', m', id, key)
    ensures m'.maxKey.Keys == m'.mainNext.Keys
  {
    hide Keys, Linked, BodyOk;
    assert MetaAt(F, m, |F.buckets| - 1);
  }

  lemma NewBucketCovers(F: File, m: Meta, F': File, m': Meta, id: nat, key: Key, x: nat)
    requires MetaNewBucket(F, m, F', m', id, key)
    ensures x in m'.maxKey ==> IsMain(F', x, |F'.buckets|)
    ensures x in m'.owner ==> IsMember(F', x, |F'.buckets|)
  {
    hide Keys, Linked, BodyOk, MetaAt;
    var n := |F.buckets|;
    if x == id {
      assert F'.buckets[n][0] == id && At(F', id, n, 0);
    } else {
      if x in m.maxKey {
        assert IsMain(F, x, n);
        var j: nat :| j < n && F.buckets[j] != [] && F.buckets[j][0] == x;
        assert F'.buckets[j][0] == x;
      }
      if x in m.owner {
        assert IsMember(F, x, n);
        var j: nat, k: nat :| j < n && At(F, x, j, k);
        assert At(F', x, j, k);
      }
    }
  }

  lemma MetaAtNewBucket(F: File, m: Meta, F': File, m': Meta, id: nat, key: Key, j: nat)
    requires MetaNewBucket(F, m, F', m', id, key) && j < |F'.buckets|
    ensures F'.buckets[j] != [] && MetaAt(F', m', j)
  {
    hide Keys, BodyOk;
    var n := |F.buckets|;
    if j < n {
      assert MetaAt(F, m, j);
      assert At(F, F.buckets[j][0], j, 0) && At(F, F.buckets[n - 1][0], n - 1, 0);
      InPages(F, j, 0);
      forall k | 0 <= k < |F.buckets[j]|
        ensures F.buckets[j][k] in m'.owner && m'.owner[F.buckets[j][k]] == F.buckets[j][0]
      {
        InPages(F, j, k);
      }
    } else {
      InPages(F, n - 1, 0);
    }
  }

  class SequentialFile {
    const bodySize: nat
    const keyOf: seq<Byte> -> Key
    var pages: map<nat, SeqPage>
    var pageCount: nat
    var maxKey: map<nat, Option<Key>>
    var mainNext: map<nat, Option<nat>>
    var owner: map<nat, nat>
    ghost var buckets: seq<seq<nat>>

    ghost function F(): File
      reads this
    {
      File(bodySize, keyOf, pages, pageCount, buckets)
    }

    ghost function M(): Meta
      reads this
    {
      Meta(maxKey, mainNext, owner)
    }

    ghost predicate Valid()
      reads this
    {
      bodySize >= HEADER_SIZE && Inv(F()) && MetaOk(F(), M())
    }

    /** The record a RID refers to. */
    function Fetch(rid: RID): Option<seq<Byte>>
      reads this
    {
      RecordAt(Bodies(pages), rid)
    }

    constructor (bodySize: nat, keyOf: seq<Byte> -> Key)
      requires bodySize >= HEADER_SIZE
      ensures Valid() && this.bodySize == bodySize && this.keyOf == keyOf
      ensures forall rid :: Fetch(rid) == None
    {
      this.bodySize, this.keyOf := bodySize, keyOf;
      pages, pageCount, buckets := map[0 := FreshPage(true, NewPage(bodySize))], 1, [[0]];
      maxKey, mainNext, owner := map[0 := None], map[0 := None], map[0 := 0];
      new;
      LiveBytesNone();
      EmptyFileOk(F(), M());
    }

    /** The first bucket whose largest key is not below the key, else the last bucket. */
    method TargetMain(key: Key) returns (main: nat, inRange: bool, ghost i: nat)
      requires Valid()
      ensures Target(F(), i, key) && main == buckets[i][0]
      ensures BucketFor(F(), i, key) && (inRange <==> Reaches(F(), i, key))
    {
      hide Keys, Linked, BodyOk, WasteOk;
      main := 0;
      i := 0;
      while true
        invariant i < |buckets| && main == buckets[i][0]
        invariant forall j, x :: 0 <= j < i && x in Keys(F(), j) ==> x < key
        decreases |buckets| - i
      {
        assert MetaAt(F(), M(), i);
        if maxKey[main].Some? && maxKey[main].value >= key {
          return main, true, i;
        }
        if mainNext[main].None? {
          return main, false, i;
        }
        main := mainNext[main].value;
        i := i + 1;
      }
    }

    /** Try one page of the bucket; if it takes the record, the bucket's largest key follows. */
    method PlaceIn(id: nat, main: nat, key: Key, data: seq<Byte>, ghost i: nat, ghost k: nat) returns (rid: Option<RID>)
      requires Valid() && At(F(), id, i, k) && main == buckets[i][0] && Target(F(), i, key) && keyOf(data) == key
      modifies this`pages, this`maxKey
      ensures Valid()
      ensures rid.None? ==> SameSlots(old(pages), pages) && Target(F(), i, key)
      ensures rid.None? ==> (forall x :: x in Keys(F(), i) <==> x in old(Keys(F(), i)))
      ensures rid.Some? ==> Placed(Bodies(old(pages)), Bodies(pages), rid.value, data)
      ensures (rid.Some? <==> RoomOn(old(pages), id, |data|)) && (rid.Some? ==> rid.value.pageId == id)
    {
      hide Inv, MetaOk, Keys, PageKeys, Occupied, Reclaimable, Capacity, Target, IsMax, MetaChange, Placed;
      ghost var before, m := F(), M();
      PageThere(before, m, id, i, k);
      var slot := |pages[id].body.slots|;
      var body, done := TryInsert(pages[id].body, data);
      pages := pages[id := pages[id].(body := body)];
      rid := None;
      ghost var added := {};
      if done {
        added := {key};
        PageKeysAppend(keyOf, before.pages[id].body, body, data);
        LargerIsMax(Keys(before, i), maxKey[main], key);
        maxKey := maxKey[main := Larger(maxKey[main], key)];
        rid := Some(RID(id, slot));
        PlacedOn(before.pages, pages, id, data);
      } else {
        SameKeys(keyOf, before.pages[id].body, body);
        assert Keys(before, i) + {} == Keys(before, i);
      }
      BodyTaken(before, m, id, main, i, k, body, F(), M(), added);
    }

    /** A new overflow page behind the last page of the bucket, with the record on it. */
    method AppendOverflow(last: nat, main: nat, key: Key, data: seq<Byte>, ghost i: nat) returns (rid: RID)
      requires Valid() && i < |buckets| && main == buckets[i][0] && last == buckets[i][|buckets[i]| - 1]
      requires Target(F(), i, key) && keyOf(data) == key && |data| <= MaxRecordSize(bodySize)
      modifies this
      ensures Valid() && Placed(Bodies(old(pages)), Bodies(pages), rid, data)
      ensures rid.pageId == old(pageCount) && buckets == old(buckets)[i := old(buckets)[i] + [old(pageCount)]]
    {
      hide Ok, Keys, Linked, WasteOk, PageKeys, Occupied, Reclaimable, HasRoom;
      ghost var before, m := F(), M();
      InPages(before, i, |buckets[i]| - 1);
      var id := pageCount;
      var body := FreshBody(bodySize, data);
      pageCount := pageCount + 1;
      pages := pages[id := FreshPage(false, body)];
      owner := owner[id := main];
      LastIsMain(before, i);
      if last == main {
        pages := pages[last := pages[last].(firstOverflow := Some(id))];
      } else {
        pages := pages[last := pages[last].(next := Some(id))];
      }
      buckets := buckets[i := buckets[i] + [id]];
      FreshKeys(keyOf, body, data);
      assert NewOverflow(before, i, id, body, F());
      NewOverflowKeepsInv(before, i, id, body, F());
      NewOverflowKeys(before, i, id, body, F());
      assert MetaAt(before, m, i);
      LargerIsMax(Keys(before, i), maxKey[main], key);
      maxKey := maxKey[main := Larger(maxKey[main], key)];
      assert MetaChange(before, m, F(), M(), i, Some(id));
      MetaAfterChange(before, m, F(), M(), i, Some(id));
      rid := RID(id, 0);
      PlacedFresh(before.pages, pages, id, last, data);
    }

    /** A new main page, a new bucket, behind the last one, with the record on it. */
    method AppendMain(last: nat, key: Key, data: seq<Byte>) returns (rid: RID)
      requires Valid() && last == buckets[|buckets| - 1][0]
      requires forall j, x :: 0 <= j < |buckets| && x in Keys(F(), j) ==> x < key
      requires keyOf(data) == key && |data| <= MaxRecordSize(bodySize)
      modifies this
      ensures Valid() && Placed(Bodies(old(pages)), Bodies(pages), rid, data)
      ensures rid.pageId == old(pageCount) && buckets == old(buckets) + [[old(pageCount)]]
    {
      hide Ok, Keys, Linked, WasteOk, PageKeys, Occupied, Reclaimable, HasRoom;
      ghost var before, m := F(), M();
      InPages(before, |buckets| - 1, 0);
      var id := pageCount;
      var body := FreshBody(bodySize, data);
      pageCount := pageCount + 1;
      pages := pages[id := FreshPage(true, body)];
      pages := pages[last := pages[last].(next := Some(id))];
      buckets := buckets + [[id]];
      maxKey, mainNext, owner := maxKey[id := Some(key)], mainNext[id := None][last := Some(id)], owner[id := id];
      FreshKeys(keyOf, body, data);
      assert NewBucket(before, id, body, F());
      NewBucketKeepsInv(before, id, body, F());
      NewBucketKeys(before, id, body, F());
      MetaAfterNewBucket(before, m, F(), M(), id, key);
      rid := RID(id, 0);
      PlacedFresh(before.pages, pages, id, last, data);
    }

    /**
     Store a record in the bucket its key belongs to, under a RID that never referred to
     anything. No other record moves.
     */
    method InsertRecord(data: seq<Byte>) returns (rid: Option<RID>)
      requires Valid()
      modifies this
      ensures Valid()
      ensures rid.None? <==> 4 + 4 + |data| > bodySize
      ensures rid.None? ==> pages == old(pages)
      ensures rid.Some? ==> Placed(Bodies(old(pages)), Bodies(pages), rid.value, data)
      ensures rid.Some? ==> exists i: nat :: GoesTo(old(F()), i, keyOf(data), |data|, rid.value.pageId, buckets)
    {
      hide Inv, MetaOk, Keys, Placed, RoomOn, GoesTo;
      if |data| > MaxRecordSize(bodySize) {
        return None;
      }
      ghost var before := F();
      var key := keyOf(data);
      ghost var i: nat;
      var main, inRange;
      main, inRange, i := TargetMain(key);
      BucketsThere(F());
      rid := PlaceIn(main, main, key, data, i, 0);
      if rid.Some? {
        GoesToMain(before, i, key, |data|);
        return;
      }
      ghost var tried := pages;
      BucketsThere(F());
      SameRoom(before, F(), |data|);
      var r: RID;
      if !inRange {
        r := AppendMain(main, key, data);
        GoesToNewBucket(before, i, key, |data|);
      } else {
        r := InsertIntoOverflow(main, key, data, i);
        GoesToOverflow(before, tried, i, key, |data|, r.pageId, buckets);
      }
      PlacedAfterTry(old(pages), tried, pages, r, data);
      rid := Some(r);
    }

    /** Walk the overflow chain, trying each page; append one page when none takes the record. */
    method InsertIntoOverflow(main: nat, key: Key, data: seq<Byte>, ghost i: nat) returns (rid: RID)
      requires Valid() && i < |buckets| && buckets[i] != [] && main == buckets[i][0]
      requires Target(F(), i, key) && keyOf(data) == key && |data| <= MaxRecordSize(bodySize) && !RoomOn(pages, main, |data|)
      modifies this
      ensures Valid() && Placed(Bodies(old(pages)), Bodies(pages), rid, data)
      ensures if NoneWithRoom(old(pages), old(buckets)[i], |data|)
              then rid.pageId == old(pageCount) && buckets == old(buckets)[i := old(buckets)[i] + [old(pageCount)]]
              else buckets == old(buckets) && FirstWithRoom(old(pages), old(buckets)[i], |data|, rid.pageId)
    {
      hide Inv, MetaOk, Keys, Placed, BodyOk, RoomOn;
      ghost var start := F();
      var current := main;
      ghost var k: nat := 0;
      while true
        invariant Valid() && buckets == old(buckets) && k < |buckets[i]| && current == buckets[i][k]
        invariant SameSlots(old(pages), pages) && Target(F(), i, key) && pageCount == old(pageCount)
        invariant forall l :: 0 <= l <= k ==> !RoomOn(old(pages), buckets[i][l], |data|)
        decreases |buckets[i]| - k
      {
        BucketsThere(start);
        BucketsThere(F());
        SameRoom(start, F(), |data|);
        var following := FollowingPage(current, i, k);
        if following.None? {
          ghost var tried := pages;
          rid := AppendOverflow(current, main, key, data, i);
          PlacedAfterTry(old(pages), tried, pages, rid, data);
          return;
        }
        current := following.value;
        k := k + 1;
        ghost var before := pages;
        var done := PlaceIn(current, main, key, data, i, k);
        if done.Some? {
          PlacedAfterTry(old(pages), before, pages, done.value, data);
          return done.value;
        }
      }
    }

    /** The page after this one in its bucket. */
    method FollowingPage(id: nat, ghost i: nat, ghost k: nat) returns (following: Option<nat>)
      requires StructureOk(F()) && i < |buckets| && k < |buckets[i]| && buckets[i][k] == id
      ensures following == NextOf(buckets[i], k)
    {
      assert Linked(F(), i, k);
      following := if pages[id].isMain then pages[id].firstOverflow else pages[id].next;
    }

    /** All pages, bucket by bucket, following the links from page 0. */
    method Walk() returns (found: seq<seq<nat>>)
      requires StructureOk(F())
      ensures found == buckets
    {
      hide BodyOk;
      found := [];
      var main: Option<nat> := Some(0);
      ghost var i: nat := 0;
      while main.Some?
        invariant i <= |buckets| && found == buckets[..i]
        invariant main == if i < |buckets| then Some(buckets[i][0]) else None
        decreases |buckets| - i
      {
        assert Linked(F(), i, 0);
        var ids := WalkBucket(main.value, i);
        found := found + [ids];
        assert buckets[..i + 1] == buckets[..i] + [buckets[i]];
        main := pages[main.value].next;
        i := i + 1;
      }
    }

    method WalkBucket(main: nat, ghost i: nat) returns (ids: seq<nat>)
      requires StructureOk(F()) && i < |buckets| && main == buckets[i][0]
      ensures ids == buckets[i]
    {
      hide Linked, BodyOk;
      ids := [main];
      var current := FollowingPage(main, i, 0);
      while current.Some?
        invariant 0 < |ids| <= |buckets[i]| && ids == buckets[i][..|ids|]
        invariant current == NextOf(buckets[i], |ids| - 1)
        decreases |buckets[i]| - |ids|
      {
        ids := ids + [current.value];
        current := FollowingPage(current.value, i, |ids| - 1);
      }
    }

    /** The largest key of a bucket. */
    method BucketMax(ids: seq<nat>, ghost i: nat) returns (v: Option<Key>)
      requires StructureOk(F()) && i < |buckets| && ids == buckets[i]
      ensures IsMax(Keys(F(), i), v)
    {
      hide BodyOk;
      v := None;
      assert ids[..0] == [];
      for k := 0 to |ids|
        invariant IsMax(KeysOfPages(F(), ids[..k]), v)
      {
        InPages(F(), i, k);
        assert ids[..k + 1] == ids[..k] + [ids[k]];
        KeysAppend(F(), ids[..k], ids[k]);
        var w := PageMax(pages[ids[k]].body);
        v := if w.Some? then Larger(v, w.value) else v;
      }
      assert ids[..|ids|] == ids;
    }

    method PageMax(p: Page) returns (v: Option<Key>)
      ensures IsMax(PageKeys(keyOf, p), v)
    {
      v := None;
      for s := 0 to |p.slots|
        invariant v.Some? ==> exists t :: 0 <= t < s && p.slots[t].Some? && keyOf(p.slots[t].value) == v.value
        invariant forall t :: 0 <= t < s && p.slots[t].Some? ==> v.Some? && keyOf(p.slots[t].value) <= v.value
      {
        if p.slots[s].Some? {
          v := Larger(v, keyOf(p.slots[s].value));
        }
      }
    }

    method GlobalWasteStats() returns (reclaimable: int, occupied: int)
      requires StructureOk(F())
      ensures reclaimable == SumAll(pages, buckets, Dead) && occupied == SumAll(pages, buckets, Used)
    {
      var bs := Walk();
      reclaimable, occupied := 0, 0;
      assert bs[..0] == [];
      hide StructureOk, Dead, Used, Sum;
      for i := 0 to |bs|
        invariant reclaimable == SumAll(pages, bs[..i], Dead) && occupied == SumAll(pages, bs[..i], Used)
      {
        var r, o := BucketWaste(bs[i], i);
        assert bs[..i + 1] == bs[..i] + [bs[i]];
        SumAllAppend(pages, bs[..i], bs[i], Dead);
        SumAllAppend(pages, bs[..i], bs[i], Used);
        reclaimable, occupied := reclaimable + r, occupied + o;
      }
      assert bs[..|bs|] == bs;
    }

    method BucketWaste(ids: seq<nat>, ghost i: nat) returns (reclaimable: int, occupied: int)
      requires StructureOk(F()) && i < |buckets| && ids == buckets[i]
      ensures reclaimable == Sum(pages, ids, Dead) && occupied == Sum(pages, ids, Used)
    {
      reclaimable, occupied := 0, 0;
      assert ids[..0] == [];
      hide StructureOk, Dead, Used;
      for k := 0 to |ids|
        invariant reclaimable == Sum(pages, ids[..k], Dead) && occupied == Sum(pages, ids[..k], Used)
      {
        InPages(F(), i, k);
        assert ids[..k + 1] == ids[..k] + [ids[k]];
        SumAppend(pages, ids[..k], ids[k], Dead);
        SumAppend(pages, ids[..k], ids[k], Used);
        reclaimable, occupied := reclaimable + Dead(pages[ids[k]]), occupied + Used(pages[ids[k]]);
      }
      assert ids[..|ids|] == ids;
    }

    /** Squeeze the dead space out of one page. */
    method CompactOne(id: nat, ghost i: nat, ghost k: nat)
      requires bodySize >= HEADER_SIZE && StructureOk(F()) && OrderOk(F()) && MetaOk(F(), M()) && At(F(), id, i, k)
      modifies this`pages
      ensures StructureOk(F()) && OrderOk(F()) && MetaOk(F(), M())
      ensures SameSlots(old(pages), pages)
      ensures id in pages && Reclaimable(pages[id].body) == 0
      ensures forall p :: p in pages && p != id ==> pages[p] == old(pages)[p]
    {
      hide OrderOk, MetaOk, PageKeys, Keys;
      ghost var before, m := F(), M();
      InPages(before, i, k);
      assert BodyOk(before, id);
      CompactIs(pages[id].body);
      if Reclaimable(pages[id].body) > 0 {
        pages := pages[id := pages[id].(body := Compact(pages[id].body))];
      } else {
        ReclaimableNatural(pages[id].body);
        assert pages[id := pages[id].(body := pages[id].body)] == pages;
      }
      SameKeys(keyOf, before.pages[id].body, pages[id].body);
      hide StructureOk;
      BodyCompacted(before, m, id, i, k, pages[id].body, F());
    }

    /** Squeeze the dead space out of every page. */
    method ReorganizeGlobally()
      requires bodySize >= HEADER_SIZE && StructureOk(F()) && OrderOk(F()) && MetaOk(F(), M())
      modifies this`pages
      ensures Valid() && SameSlots(old(pages), pages)
      ensures SumAll(pages, buckets, Dead) == 0 && forall p :: p in pages ==> Squeezed(pages, p)
    {
      hide StructureOk, OrderOk, MetaOk, Ok;
      var bs := Walk();
      for i := 0 to |bs|
        invariant bs == buckets && StructureOk(F()) && OrderOk(F()) && MetaOk(F(), M()) && SameSlots(old(pages), pages)
        invariant forall j, l :: 0 <= j < i && 0 <= l < |bs[j]| ==> Squeezed(pages, bs[j][l])
      {
        for k := 0 to |bs[i]|
          invariant bs == buckets && StructureOk(F()) && OrderOk(F()) && MetaOk(F(), M()) && SameSlots(old(pages), pages)
          invariant forall j, l :: 0 <= j < i && 0 <= l < |bs[j]| ==> Squeezed(pages, bs[j][l])
          invariant forall l :: 0 <= l < k ==> Squeezed(pages, bs[i][l])
        {
          assert At(F(), bs[i][k], i, k);
          CompactOne(bs[i][k], i, k);
        }
      }
      NothingDead(F());
      EveryPageSqueezed(F());
    }

    /** Remove one record; when too much space is dead afterwards every page is compacted. */
    method RemoveRecord(rid: RID) returns (removed: bool)
      requires Valid()
      modifies this
      ensures Valid()
      ensures removed <==> old(Fetch(rid)).Some?
      ensures Fetch(rid) == None
      ensures forall other :: other != rid ==> RecordAt(Bodies(pages), other) == RecordAt(Bodies(old(pages)), other)
      ensures !removed ==> pages == old(pages)
      ensures SlotCounts(Bodies(pages)) == SlotCounts(Bodies(old(pages)))
      ensures removed ==>
                var deleted := WithoutRecord(old(pages), rid);
                if DeadBytes(deleted, pageCount) * 100 > UsedBytes(deleted, pageCount) * 30
                then SameSlots(deleted, pages) && forall p :: p in pages ==> Squeezed(pages, p)
                else pages == deleted
    {
      hide StructureOk, OrderOk, MetaOk, WasteOk, Ok, Keys, PageKeys, Delete, RecordAt, Bodies, SlotCounts, SameSlots;
      RecordIs(pages, rid);
      if rid.pageId < 0 || rid.pageId >= pageCount {
        PagesAre(F());
        return false;
      }
      PagesAre(F());
      if Read(pages[rid.pageId].body, rid.slot).None? {
        return false;
      }
      ghost var before, m := F(), M();
      ghost var i, k := PlaceOf(before, rid.pageId);
      PageThere(before, m, rid.pageId, i, k);
      DeleteIs(pages[rid.pageId].body, rid.slot);
      PageKeysDelete(keyOf, pages[rid.pageId].body, rid.slot);
      pages := pages[rid.pageId := pages[rid.pageId].(body := Delete(pages[rid.pageId].body, rid.slot))];
      OwnerIs(before, m, rid.pageId, i, k);
      var main := owner[rid.pageId];
      BodyShrunk(before, rid.pageId, i, k, pages[rid.pageId].body, F());
      var ids := WalkBucket(main, i);
      var v := BucketMax(ids, i);
      maxKey := maxKey[main := v];
      MetaAfterDelete(before, m, F(), M(), i, main);
      ghost var deleted := pages;
      WasteIs(F());
      var reclaimable, occupied := GlobalWasteStats();
      if occupied > 0 && reclaimable * 100 > occupied * 30 {
        ReorganizeGlobally();
      } else {
        DeadWithinUsed(F());
      }
      RecordsAfterDelete(before.pages, deleted, pages, rid);
      return true;
    }

    /**
     Whatever is in memory, reading the chains of the file gives the one right metadata; that is
     the metadata the file was closed with.
     */
    method RebuildChainMetadata()
      requires bodySize >= HEADER_SIZE && Inv(F())
      modifies this`maxKey, this`mainNext, this`owner
      ensures Valid() && (old(MetaOk(F(), M())) ==> M() == old(M()))
    {
      hide Inv, StructureOk, OrderOk, WasteOk, Keys;
      ghost var m := M();
      BucketsThere(F());
      var bs := Walk();
      maxKey, mainNext, owner := map[], map[], map[];
      for i := 0 to |bs|
        invariant MetaUpTo(F(), M(), i)
      {
        ghost var before := M();
        hide MetaUpTo;
        var v := BucketMax(bs[i], i);
        var own := Owners(bs[i], owner);
        owner := own;
        var main := bs[i][0];
        maxKey := maxKey[main := v];
        MainPageThere(F(), i);
        mainNext := mainNext[main := pages[main].next];
        MetaOneMore(F(), before, M(), i);
      }
      if MetaOk(F(), m) {
        MetaUnique(F(), m, M());
      }
    }

    /** The records of one bucket, sorted by key, page and slot. */
    method ScanBucket(ids: seq<nat>, ghost i: nat) returns (found: seq<Stored>)
      requires StructureOk(F()) && i < |buckets| && ids == buckets[i]
      ensures Ascending(keyOf, found)
      ensures forall x :: x in found <==> RecordAt(Bodies(pages), x.rid) == Some(x.data) && x.rid.pageId in ids
    {
      hide BodyOk;
      found := [];
      for k := 0 to |ids|
        invariant Ascending(keyOf, found)
        invariant forall x :: x in found <==> RecordAt(Bodies(pages), x.rid) == Some(x.data) && x.rid.pageId in ids[..k]
      {
        assert ids[..k + 1] == ids[..k] + [ids[k]];
        InPages(F(), i, k);
        NotBefore(F(), i, k);
        found := SortInPage(ids[k], found);
      }
      assert ids[..|ids|] == ids;
    }

    /** Sort the records of one page into what was found so far. */
    method SortInPage(id: nat, before: seq<Stored>) returns (found: seq<Stored>)
      requires id in pages && Ascending(keyOf, before) && forall x :: x in before ==> x.rid.pageId != id
      ensures Ascending(keyOf, found)
      ensures forall x :: x in found <==> x in before || (RecordAt(Bodies(pages), x.rid) == Some(x.data) && x.rid.pageId == id)
    {
      found := before;
      for s := 0 to |pages[id].body.slots|
        invariant Ascending(keyOf, found)
        invariant forall x :: x in found <==>
                    x in before || (RecordAt(Bodies(pages), x.rid) == Some(x.data) && x.rid.pageId == id && x.rid.slot < s)
      {
        var data := Read(pages[id].body, s);
        if data.Some? {
          var e := Stored(RID(id, s), data.value);
          InsertSorted(keyOf, found, e);
          found := InsertStored(keyOf, found, e);
        }
      }
    }

    /** Every live record exactly once, in ascending key order. */
    method Scan() returns (found: seq<Stored>)
      requires Valid()
      ensures Ascending(keyOf, found)
      ensures forall i, j :: 0 <= i < j < |found| ==>
                var k, l, a, b := keyOf(found[i].data), keyOf(found[j].data), found[i].rid, found[j].rid;
                k < l || (k == l && (a.pageId < b.pageId || (a.pageId == b.pageId && a.slot < b.slot)))
      ensures forall x :: x in found <==> Fetch(x.rid) == Some(x.data)
    {
      hide OrderOk, MetaOk, WasteOk, Keys, Linked, BodyOk;
      var bs := Walk();
      found := [];
      for i := 0 to |bs|
        invariant Ascending(keyOf, found)
        invariant forall x :: x in found <==> Fetch(x.rid) == Some(x.data) && InBuckets(bs, i, x.rid.pageId)
      {
        var more := ScanBucket(bs[i], i);
        BucketBehind(F(), i, found, more);
        found := found + more;
      }
      AllInBuckets(F());
    }
  }

  // ----- where a record goes -----

  lemma GoesToMain(F: File, i: nat, key: Key, size: nat)
    requires BucketFor(F, i, key) && F.buckets[i] != [] && RoomOn(F.pages, F.buckets[i][0], size)
    ensures GoesTo(F, i, key, size, F.buckets[i][0], F.buckets)
  {
    hide RoomOn, Reaches;
    var tried := if Reaches(F, i, key) then F.buckets[i] else F.buckets[i][..1];
    assert tried[0] == F.buckets[i][0];
  }

  lemma GoesToNewBucket(F: File, i: nat, key: Key, size: nat)
    requires BucketFor(F, i, key) && F.buckets[i] != [] && !RoomOn(F.pages, F.buckets[i][0], size) && !Reaches(F, i, key)
    ensures GoesTo(F, i, key, size, F.pageCount, F.buckets + [[F.pageCount]])
  {
  }

  lemma GoesToOverflow(F: File, pages: map<nat, SeqPage>, i: nat, key: Key, size: nat, page: int, after: seq<seq<nat>>)
    requires BucketFor(F, i, key) && F.buckets[i] != [] && Reaches(F, i, key)
    requires forall id :: RoomOn(pages, id, size) <==> RoomOn(F.pages, id, size)
    requires if NoneWithRoom(pages, F.buckets[i], size) then page == F.pageCount && after == F.buckets[i := F.buckets[i] + [F.pageCount]]
             else after == F.buckets && FirstWithRoom(pages, F.buckets[i], size, page)
    ensures GoesTo(F, i, key, size, page, after)
  {
    hide RoomOn, Reaches;
  }

  // ----- sorting a scan -----

  /** Scan order: key, then page, then slot. */
  predicate StoredBefore(keyOf: seq<Byte> -> Key, a: Stored, b: Stored) {
    if keyOf(a.data) != keyOf(b.data) then keyOf(a.data) < keyOf(b.data) else RidBefore(a.rid, b.rid)
  }

  predicate Ascending(keyOf: seq<Byte> -> Key, es: seq<Stored>) {
    forall i, j :: 0 <= i < j < |es| ==> StoredBefore(keyOf, es[i], es[j])
  }

  function InsertStored(keyOf: seq<Byte> -> Key, es: seq<Stored>, e: Stored): seq<Stored> {
    if es == [] || StoredBefore(keyOf, es[|es| - 1], e) then es + [e]
    else InsertStored(keyOf, es[..|es| - 1], e) + [es[|es| - 1]]
  }

  lemma {:induction false} InsertSorted(keyOf: seq<Byte> -> Key, es: seq<Stored>, e: Stored)
    requires Ascending(keyOf, es) && forall x :: x in es ==> x.rid != e.rid
    ensures Ascending(keyOf, InsertStored(keyOf, es, e))
    ensures forall x :: x in InsertStored(keyOf, es, e) <==> x in es || x == e
  {
    if es != [] && !StoredBefore(keyOf, es[|es| - 1], e) {
      var front, last := es[..|es| - 1], es[|es| - 1];
      assert last in es && forall x :: x in es <==> x in front || x == last;
      InsertSorted(keyOf, front, e);
      var r := InsertStored(keyOf, front, e);
      assert StoredBefore(keyOf, e, last);
      forall i | 0 <= i < |r|
        ensures StoredBefore(keyOf, r[i], last)
      {
        assert r[i] in r;
        if r[i] != e {
          var j :| 0 <= j < |front| && front[j] == r[i];
        }
      }
    }
  }

  ghost predicate InBuckets(bs: seq<seq<nat>>, n: nat, id: int) {
    exists i, k :: 0 <= i < n && i < |bs| && 0 <= k < |bs[i]| && bs[i][k] == id
  }

  lemma NotBefore(F: File, i: nat, k: nat)
    requires StructureOk(F) && i < |F.buckets| && k < |F.buckets[i]|
    ensures F.buckets[i][k] !in F.buckets[i][..k]
  {
    forall l | 0 <= l < k
      ensures F.buckets[i][l] != F.buckets[i][k]
    {
      assert At(F, F.buckets[i][l], i, l) && At(F, F.buckets[i][k], i, k);
    }
  }

  lemma RecordKey(F: File, i: nat, x: Stored)
    requires i < |F.buckets| && RecordAt(Bodies(F.pages), x.rid) == Some(x.data) && x.rid.pageId in F.buckets[i]
    ensures F.keyOf(x.data) in Keys(F, i)
  {
    var k :| 0 <= k < |F.buckets[i]| && F.buckets[i][k] == x.rid.pageId;
    var p := F.pages[F.buckets[i][k]].body;
    assert p.slots[x.rid.slot] == Some(x.data);
    assert F.keyOf(x.data) in KeysAt(F, F.buckets[i][k]);
    KeysInPages(F, F.buckets[i], F.keyOf(x.data));
  }

  /** The records of a later bucket go behind those found before. */
  lemma BucketBehind(F: File, i: nat, found: seq<Stored>, more: seq<Stored>)
    requires StructureOk(F) && OrderOk(F) && i < |F.buckets|
    requires Ascending(F.keyOf, found) && Ascending(F.keyOf, more)
    requires forall x :: x in found <==> RecordAt(Bodies(F.pages), x.rid) == Some(x.data) && InBuckets(F.buckets, i, x.rid.pageId)
    requires forall x :: x in more <==> RecordAt(Bodies(F.pages), x.rid) == Some(x.data) && x.rid.pageId in F.buckets[i]
    ensures Ascending(F.keyOf, found + more)
    ensures forall x :: x in found + more <==>
              RecordAt(Bodies(F.pages), x.rid) == Some(x.data) && InBuckets(F.buckets, i + 1, x.rid.pageId)
  {
    hide Keys, StructureOk;
    forall x, y | x in found && y in more
      ensures StoredBefore(F.keyOf, x, y)
    {
      var j, k :| 0 <= j < i && j < |F.buckets| && 0 <= k < |F.buckets[j]| && F.buckets[j][k] == x.rid.pageId;
      RecordKey(F, j, x);
      RecordKey(F, i, y);
    }
    forall a, b | 0 <= a < b < |found + more|
      ensures StoredBefore(F.keyOf, (found + more)[a], (found + more)[b])
    {
      if a < |found| && b >= |found| {
        assert found[a] in found && more[b - |found|] in more;
      }
    }
    forall x
      ensures x in found + more <==> RecordAt(Bodies(F.pages), x.rid) == Some(x.data) && InBuckets(F.buckets, i + 1, x.rid.pageId)
    {
      OneMoreBucket(F.buckets, i, x.rid.pageId);
    }
  }

  lemma OneMoreBucket(bs: seq<seq<nat>>, n: nat, id: int)
    requires n < |bs|
    ensures InBuckets(bs, n + 1, id) <==> InBuckets(bs, n, id) || id in bs[n]
  {
    if InBuckets(bs, n + 1, id) && !InBuckets(bs, n, id) {
      var i, k :| 0 <= i < n + 1 && i < |bs| && 0 <= k < |bs[i]| && bs[i][k] == id;
      assert i == n;
    }
    if id in bs[n] {
      var k :| 0 <= k < |bs[n]| && bs[n][k] == id;
      assert 0 <= n < n + 1 && bs[n][k] == id;
    }
  }

  lemma AllInBuckets(F: File)
    requires StructureOk(F)
    ensures forall id: nat :: id in F.pages ==> InBuckets(F.buckets, |F.buckets|, id)
  {
    forall id | id in F.pages
      ensures InBuckets(F.buckets, |F.buckets|, id)
    {
      assert BodyOk(F, id);
      var i, k :| At(F, id, i, k);
    }
  }

  // ----- removal and reorganization -----

  ghost predicate Squeezed(pages: map<nat, SeqPage>, id: nat) {
    id in pages && Reclaimable(pages[id].body) == 0
  }

  lemma ReclaimableNatural(p: Page)
    requires Ok(p)
    ensures Reclaimable(p) >= 0 && Occupied(p) >= Reclaimable(p)
  {
  }

  /** A body with fewer keys keeps structure and order. */
  lemma BodyShrunk(F: File, id: nat, i: nat, k: nat, body: Page, F': File)
    requires StructureOk(F) && OrderOk(F) && At(F, id, i, k) && id in F.pages
    requires F' == F.(pages := F.pages[id := F.pages[id].(body := body)])
    requires Ok(body) && body.size == F.bodySize && PageKeys(F.keyOf, body) <= PageKeys(F.keyOf, F.pages[id].body)
    ensures StructureOk(F') && OrderOk(F')
    ensures forall j :: 0 <= j < |F.buckets| && j != i ==> Keys(F', j) == Keys(F, j)
    ensures PageKeys(F.keyOf, body) == PageKeys(F.keyOf, F.pages[id].body) ==> Keys(F', i) == Keys(F, i)
  {
    hide Keys, PageKeys, OrderOk, Ok;
    NewBodyStructure(F, i, k, body, F');
    NewBodyKeys(F, i, k, body, F', {});
    assert Keys(F, i) + {} == Keys(F, i);
    OrderKept(F, F', i, {});
  }

  lemma BodyCompacted(F: File, m: Meta, id: nat, i: nat, k: nat, body: Page, F': File)
    requires StructureOk(F) && OrderOk(F) && MetaOk(F, m) && At(F, id, i, k) && id in F.pages
    requires F' == F.(pages := F.pages[id := F.pages[id].(body := body)])
    requires Ok(body) && body.size == F.bodySize && PageKeys(F.keyOf, body) == PageKeys(F.keyOf, F.pages[id].body)
    ensures StructureOk(F') && OrderOk(F') && MetaOk(F', m)
  {
    hide Keys, PageKeys, OrderOk, Ok, MetaUpTo, IsMax;
    BodyShrunk(F, id, i, k, body, F');
    MetaHas(F, m, i);
    SameBuckets(F.buckets, i);
    MetaAfterChange(F, m, F', m, i, None);
  }

  lemma MetaHas(F: File, m: Meta, i: nat)
    requires StructureOk(F) && MetaOk(F, m) && i < |F.buckets|
    ensures F.buckets[i][0] in m.maxKey && IsMax(Keys(F, i), m.maxKey[F.buckets[i][0]])
    ensures m.maxKey == m.maxKey[F.buckets[i][0] := m.maxKey[F.buckets[i][0]]]
  {
    assert MetaAt(F, m, i);
  }

  lemma MetaAfterDelete(F: File, m: Meta, F': File, m': Meta, i: nat, main: nat)
    requires StructureOk(F) && MetaOk(F, m) && i < |F.buckets| && F'.buckets == F.buckets && main == F.buckets[i][0]
    requires forall j :: 0 <= j < |F.buckets| && j != i ==> Keys(F', j) == Keys(F, j)
    requires main in m'.maxKey && IsMax(Keys(F', i), m'.maxKey[main]) && m'.maxKey == m.maxKey[main := m'.maxKey[main]]
    requires m'.mainNext == m.mainNext && m'.owner == m.owner
    ensures MetaOk(F', m')
  {
    hide Keys, IsMax, MetaOk, StructureOk;
    SameBuckets(F.buckets, i);
    MetaAfterChange(F, m, F', m', i, None);
  }

  lemma OwnerIs(F: File, m: Meta, id: nat, i: nat, k: nat)
    requires StructureOk(F) && MetaOk(F, m) && At(F, id, i, k)
    ensures id in m.owner && m.owner[id] == F.buckets[i][0]
  {
    assert MetaAt(F, m, i);
  }

  lemma PagesAre(F: File)
    requires StructureOk(F)
    ensures forall id: nat :: id in F.pages <==> id < F.pageCount
  {
  }

  lemma PlaceOf(F: File, id: nat) returns (i: nat, k: nat)
    requires StructureOk(F) && id in F.pages
    ensures At(F, id, i, k)
  {
    assert BodyOk(F, id);
    i, k :| At(F, id, i, k);
  }

  lemma RecordIs(pages: map<nat, SeqPage>, rid: RID)
    ensures RecordAt(Bodies(pages), rid) ==
            if rid.pageId >= 0 && rid.pageId in pages then Read(pages[rid.pageId].body, rid.slot) else None
  {
  }

  lemma RecordsAfterDelete(before: map<nat, SeqPage>, deleted: map<nat, SeqPage>, after: map<nat, SeqPage>, rid: RID)
    requires rid.pageId >= 0 && rid.pageId in before && Ok(before[rid.pageId].body)
    requires deleted == before[rid.pageId := before[rid.pageId].(body := Delete(before[rid.pageId].body, rid.slot))]
    requires SameSlots(deleted, after)
    ensures RecordAt(Bodies(after), rid) == None
    ensures forall other :: other != rid ==> RecordAt(Bodies(after), other) == RecordAt(Bodies(before), other)
    ensures SlotCounts(Bodies(after)) == SlotCounts(Bodies(before))
  {
    DeleteIs(before[rid.pageId].body, rid.slot);
    assert forall other :: RecordAt(Bodies(after), other) == RecordAt(Bodies(deleted), other);
  }

  lemma {:induction false} SumBounds(F: File, ids: seq<nat>)
    requires forall k :: 0 <= k < |ids| ==> BodyOk(F, ids[k])
    ensures 0 <= Sum(F.pages, ids, Dead) <= Sum(F.pages, ids, Used)
    ensures (forall k :: 0 <= k < |ids| ==> Squeezed(F.pages, ids[k])) ==> Sum(F.pages, ids, Dead) == 0
  {
    if ids != [] {
      SumBounds(F, ids[..|ids| - 1]);
      assert BodyOk(F, ids[|ids| - 1]);
      ReclaimableNatural(F.pages[ids[|ids| - 1]].body);
    }
  }

  lemma {:induction false} SumAllBounds(F: File, n: nat)
    requires StructureOk(F) && n <= |F.buckets|
    ensures 0 <= SumAll(F.pages, F.buckets[..n], Dead) <= SumAll(F.pages, F.buckets[..n], Used)
    ensures (forall i, k :: 0 <= i < n && 0 <= k < |F.buckets[i]| ==> Squeezed(F.pages, F.buckets[i][k])) ==>
              SumAll(F.pages, F.buckets[..n], Dead) == 0
  {
    if n > 0 {
      SumAllBounds(F, n - 1);
      assert F.buckets[..n] == F.buckets[..n - 1] + [F.buckets[n - 1]];
      SumAllAppend(F.pages, F.buckets[..n - 1], F.buckets[n - 1], Dead);
      SumAllAppend(F.pages, F.buckets[..n - 1], F.buckets[n - 1], Used);
      var ids := F.buckets[n - 1];
      forall k | 0 <= k < |ids|
        ensures BodyOk(F, ids[k])
      {
        InPages(F, n - 1, k);
      }
      hide StructureOk, Squeezed, Sum, SumAll;
      SumBounds(F, ids);
    }
  }

  /** The pages after one delete, before anything is compacted. */
  function WithoutRecord(pages: map<nat, SeqPage>, rid: RID): map<nat, SeqPage> {
    if rid.pageId >= 0 && rid.pageId in pages
    then pages[rid.pageId := pages[rid.pageId].(body := Delete(pages[rid.pageId].body, rid.slot))]
    else pages
  }

  lemma EveryPageSqueezed(F: File)
    requires StructureOk(F)
    requires forall i, k :: 0 <= i < |F.buckets| && 0 <= k < |F.buckets[i]| ==> Squeezed(F.pages, F.buckets[i][k])
    ensures forall p :: p in F.pages ==> Squeezed(F.pages, p)
  {
    hide Linked, Squeezed;
    forall p | p in F.pages
      ensures Squeezed(F.pages, p)
    {
      assert BodyOk(F, p);
      var i, k :| At(F, p, i, k);
    }
  }

  lemma DeadWithinUsed(F: File)
    requires StructureOk(F)
    requires SumAll(F.pages, F.buckets, Used) <= 0 || SumAll(F.pages, F.buckets, Dead) * 100 <= SumAll(F.pages, F.buckets, Used) * 30
    ensures WasteOk(F)
  {
    SumAllBounds(F, |F.buckets|);
    assert F.buckets[..|F.buckets|] == F.buckets;
  }

  lemma NothingDead(F: File)
    requires StructureOk(F)
    requires forall i, k :: 0 <= i < |F.buckets| && 0 <= k < |F.buckets[i]| ==> Squeezed(F.pages, F.buckets[i][k])
    ensures SumAll(F.pages, F.buckets, Dead) == 0 && WasteOk(F)
  {
    hide StructureOk, Squeezed, SumAll;
    SumAllBounds(F, |F.buckets|);
    assert F.buckets[..|F.buckets|] == F.buckets;
  }

  // ----- reopening -----

  method Owners(ids: seq<nat>, owner: map<nat, nat>) returns (r: map<nat, nat>)
    requires ids != []
    ensures forall id :: id in r <==> id in owner || id in ids
    ensures forall id :: id in r ==> r[id] == if id in ids then ids[0] else owner[id]
  {
    r := owner;
    for k := 0 to |ids|
      invariant forall id :: id in r <==> id in owner || id in ids[..k]
      invariant forall id :: id in r ==> r[id] == if id in ids[..k] then ids[0] else owner[id]
    {
      assert ids[..k + 1] == ids[..k] + [ids[k]];
      r := r[ids[k] := ids[0]];
    }
    assert ids[..|ids|] == ids;
  }

  lemma MainPageThere(F: File, i: nat)
    requires StructureOk(F) && i < |F.buckets|
    ensures F.buckets[i][0] in F.pages && F.pages[F.buckets[i][0]].next == MainAfter(F, i)
  {
    assert Linked(F, i, 0);
  }

  lemma MetaOneMore(F: File, m: Meta, m': Meta, i: nat)
    requires StructureOk(F) && i < |F.buckets| && MetaUpTo(F, m, i)
    requires var ids, main := F.buckets[i], F.buckets[i][0];
             && main in m'.maxKey && IsMax(Keys(F, i), m'.maxKey[main]) && m'.maxKey == m.maxKey[main := m'.maxKey[main]]
             && m'.mainNext == m.mainNext[main := MainAfter(F, i)]
             && (forall id :: id in m'.owner <==> id in m.owner || id in ids)
             && (forall id :: id in m'.owner ==> m'.owner[id] == if id in ids then main else m.owner[id])
    ensures MetaUpTo(F, m', i + 1)
  {
    hide Keys, IsMax, Linked, BodyOk;
    forall j: nat | j < i + 1
      ensures MetaAt(F, m', j)
    {
      if j < i {
        assert MetaAt(F, m, j);
        assert At(F, F.buckets[j][0], j, 0) && At(F, F.buckets[i][0], i, 0);
        forall k | 0 <= k < |F.buckets[j]|
          ensures F.buckets[j][k] !in F.buckets[i]
        {
          forall l | 0 <= l < |F.buckets[i]|
            ensures F.buckets[j][k] != F.buckets[i][l]
          {
            assert At(F, F.buckets[j][k], j, k) && At(F, F.buckets[i][l], i, l);
          }
        }
      }
    }
    forall id | id in m'.maxKey
      ensures IsMain(F, id, i + 1)
    {
      if id in m.maxKey {
        assert IsMain(F, id, i);
      }
    }
    forall id | id in m'.owner
      ensures IsMember(F, id, i + 1)
    {
      if id in m.owner {
        assert IsMember(F, id, i);
      } else {
        var k :| 0 <= k < |F.buckets[i]| && F.buckets[i][k] == id;
        assert At(F, id, i, k);
      }
    }
  }

  // ----- small facts -----

  lemma PageThere(F: File, m: Meta, id: nat, i: nat, k: nat)
    requires Inv(F) && MetaOk(F, m) && At(F, id, i, k)
    ensures id in F.pages && Ok(F.pages[id].body) && F.pages[id].body.size == F.bodySize
    ensures F.buckets[i][0] in m.maxKey && IsMax(Keys(F, i), m.maxKey[F.buckets[i][0]])
  {
    InPages(F, i, k);
    assert BodyOk(F, id);
    assert MetaAt(F, m, i);
  }

  /** After a try the file and its metadata are consistent again. */
  lemma BodyTaken(F: File, m: Meta, id: nat, main: nat, i: nat, k: nat, body: Page, F': File, m': Meta, added: set<Key>)
    requires Inv(F) && MetaOk(F, m) && At(F, id, i, k) && main == F.buckets[i][0] && id in F.pages
    requires F' == F.(pages := F.pages[id := F.pages[id].(body := body)])
    requires Ok(body) && body.size == F.bodySize && PageKeys(F.keyOf, body) == PageKeys(F.keyOf, F.pages[id].body) + added
    requires 0 <= Reclaimable(F.pages[id].body) - Reclaimable(body)
    requires Reclaimable(F.pages[id].body) - Reclaimable(body) >= Occupied(F.pages[id].body) - Occupied(body)
    requires forall x :: x in added ==> Target(F, i, x)
    requires main in m.maxKey && m'.maxKey == m.maxKey[main := if main in m'.maxKey then m'.maxKey[main] else None]
    requires main in m'.maxKey && IsMax(Keys(F, i) + added, m'.maxKey[main])
    requires m'.mainNext == m.mainNext && m'.owner == m.owner
    ensures Inv(F') && MetaOk(F', m')
    ensures forall j :: 0 <= j < |F.buckets| && j != i ==> Keys(F', j) == Keys(F, j)
    ensures Keys(F', i) == Keys(F, i) + added
    ensures added == {} ==> forall key :: Target(F, i, key) ==> Target(F', i, key)
  {
    hide Keys, PageKeys, Linked, BodyOk, WasteOk, OrderOk, Occupied, Reclaimable, Ok, MetaUpTo, IsMax;
    NewBodyKeepsInv(F, i, k, body, F', added);
    NewBodyKeys(F, i, k, body, F', added);
    SameBuckets(F.buckets, i);
    MetaAfterChange(F, m, F', m', i, None);
  }

  lemma SameBuckets(bs: seq<seq<nat>>, i: nat)
    requires i < |bs|
    ensures bs[i := bs[i] + []] == bs
  {
    assert bs[i] + [] == bs[i];
  }

  lemma EmptyFileOk(F: File, m: Meta)
    requires F.bodySize >= HEADER_SIZE
    requires F.pages == map[0 := FreshPage(true, NewPage(F.bodySize))] && F.pageCount == 1 && F.buckets == [[0]]
    requires m == Meta(map[0 := None], map[0 := None], map[0 := 0])
    ensures Inv(F) && MetaOk(F, m)
  {
    LiveBytesNone();
    assert Linked(F, 0, 0) && At(F, 0, 0, 0);
    assert BodyOk(F, 0);
    assert [0][..0] == [] && [[0]][..0] == [];
    assert KeysOfPages(F, [0]) == KeysOfPages(F, []) + KeysAt(F, 0);
    assert Keys(F, 0) == {};
    SumAppend(F.pages, [], 0, Dead);
    SumAppend(F.pages, [], 0, Used);
    SumAllAppend(F.pages, [], [0], Dead);
    SumAllAppend(F.pages, [], [0], Used);
    assert [] + [0] == [0] && [] + [[0]] == [[0]];
    assert MetaAt(F, m, 0);
  }

  lemma BucketsThere(F: File)
    requires Inv(F)
    ensures |F.buckets| > 0 && forall i :: 0 <= i < |F.buckets| ==> F.buckets[i] != []
    ensures StructureOk(F)
  {
  }

  lemma LastIsMain(F: File, i: nat)
    requires StructureOk(F) && i < |F.buckets|
    ensures F.buckets[i][|F.buckets[i]| - 1] == F.buckets[i][0] <==> |F.buckets[i]| == 1
  {
    var n := |F.buckets[i]|;
    assert At(F, F.buckets[i][n - 1], i, n - 1) && At(F, F.buckets[i][0], i, 0);
  }

  lemma SameKeys(keyOf: seq<Byte> -> Key, p: Page, q: Page)
    requires p.slots == q.slots
    ensures PageKeys(keyOf, p) == PageKeys(keyOf, q)
  {
  }

  function FreshBody(size: nat, data: seq<Byte>): (body: Page)
    requires |data| <= MaxRecordSize(size)
    ensures Ok(body) && body.size == size && body.slots == [Some(data)]
    ensures Reclaimable(body) == 0 && Occupied(body) >= 0
  {
    LiveBytesNone();
    InsertIs(NewPage(size), data);
    Insert(NewPage(size), data)
  }

  lemma FreshKeys(keyOf: seq<Byte> -> Key, body: Page, data: seq<Byte>)
    requires body.slots == [Some(data)]
    ensures PageKeys(keyOf, body) == {keyOf(data)}
  {
    assert body.slots[0] == Some(data);
  }

  lemma PlacedOn(before: map<nat, SeqPage>, after: map<nat, SeqPage>, id: nat, data: seq<Byte>)
    requires id in before && id in after && after == before[id := after[id]]
    requires after[id].body.slots == before[id].body.slots + [Some(data)]
    ensures Placed(Bodies(before), Bodies(after), RID(id, |before[id].body.slots|), data)
  {
    assert forall p: nat :: SlotsOn(Bodies(after), p) == SlotsOn(Bodies(before), p) + if p == id then [Some(data)] else [];
    PlacedThere(Bodies(before), Bodies(after), id, data);
  }

  lemma PlacedFresh(before: map<nat, SeqPage>, after: map<nat, SeqPage>, id: nat, last: nat, data: seq<Byte>)
    requires id !in before && last in before && id in after && last in after
    requires after == before[id := after[id]][last := after[last]]
    requires after[id].body.slots == [Some(data)] && after[last].body == before[last].body
    ensures Placed(Bodies(before), Bodies(after), RID(id, 0), data)
  {
    assert forall p: nat :: SlotsOn(Bodies(after), p) == SlotsOn(Bodies(before), p) + if p == id then [Some(data)] else [];
    PlacedThere(Bodies(before), Bodies(after), id, data);
  }

  lemma PlacedAfterTry(before: map<nat, SeqPage>, tried: map<nat, SeqPage>, after: map<nat, SeqPage>, rid: RID, data: seq<Byte>)
    requires SameSlots(before, tried) && Placed(Bodies(tried), Bodies(after), rid, data)
    ensures Placed(Bodies(before), Bodies(after), rid, data)
  {
    assert forall other :: RecordAt(Bodies(before), other) == RecordAt(Bodies(tried), other);
  }

  /**
   Over any run of inserts and removes, every RID that is handed out is new: it differs from all
   RIDs handed out before it, removed ones included, and from all that existed at the start.
   A scan after the run lists exactly the records that the run leaves of those at the start.
   */
  method Replay(file: SequentialFile, requests: seq<Request>) returns (given: seq<Option<RID>>, found: seq<Stored>)
    requires file.Valid()
    modifies file
    ensures file.Valid() && |given| == |requests|
    ensures forall i :: 0 <= i < |requests| ==>
              (given[i].Some? <==> requests[i].Store? && 4 + 4 + |requests[i].data| <= file.bodySize)
    ensures forall i, j :: 0 <= i < j < |given| && given[i].Some? && given[j].Some? ==> given[i] != given[j]
    ensures forall j :: 0 <= j < |given| && given[j].Some? ==> !Issued(SlotCounts(old(Bodies(file.pages))), given[j].value)
    ensures Holds(Bodies(file.pages), After(RecordsOf(old(Bodies(file.pages))), requests, given))
    ensures Lists(found, After(RecordsOf(old(Bodies(file.pages))), requests, given))
    ensures Ascending(file.keyOf, found)
  {
    hide Placed, SlotCounts, StoresAt, Issued, Holds, After, RecordsOf, Lists, RecordAt;
    given := [];
    ghost var start := Bodies(file.pages);
    ghost var states := [start];
    assert requests[..0] == [];
    for i := 0 to |requests|
      invariant file.Valid() && |given| == i
      invariant Runs(states, requests[..i], given) && states[0] == start && states[i] == Bodies(file.pages)
      invariant forall j :: 0 <= j < i ==>
                  (given[j].Some? <==> requests[j].Store? && 4 + 4 + |requests[j].data| <= file.bodySize)
    {
      ghost var before := Bodies(file.pages);
      var rid: Option<RID> := None;
      match requests[i] {
        case Store(data) =>
          rid := file.InsertRecord(data);
          assert Answered(before, Bodies(file.pages), requests[i], rid);
        case Drop(gone) =>
          var _ := file.RemoveRecord(gone);
          assert file.Fetch(gone) == None;
          assert Answered(before, Bodies(file.pages), requests[i], rid);
      }
      RunGrows(states, requests[..i], given, Bodies(file.pages), requests[i], rid);
      assert requests[..i + 1] == requests[..i] + [requests[i]];
      states := states + [Bodies(file.pages)];
      given := given + [rid];
    }
    assert requests[..|requests|] == requests;
    RunGivesNew(states, requests, given);
    RunMeans(states, requests, given, RecordsOf(start));
    found := file.Scan();
    ListsHeld(found, Bodies(file.pages), After(RecordsOf(start), requests, given));
  }
}
