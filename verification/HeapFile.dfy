/** The heap file with its free-space bookkeeping (engine/storage/heap_file.py). */
module HeapFiles {
  import opened Common
  import opened SlottedPages
  import opened Records
  import opened RidSupply

  /** A capacity that was once measured for a page. */
  datatype Claim = Claim(capacity: int, page: nat)

  /** The heap order of claims: larger capacity first, then smaller page id. */
  predicate Ahead(a: Claim, b: Claim) {
    a.capacity > b.capacity || (a.capacity == b.capacity && a.page < b.page)
  }

  method Top(heap: seq<Claim>) returns (i: nat)
    requires heap != []
    ensures i < |heap| && forall j :: 0 <= j < |heap| ==> !Ahead(heap[j], heap[i])
  {
    i := 0;
    for j := 1 to |heap|
      invariant i < j && forall l :: 0 <= l < j ==> !Ahead(heap[l], heap[i])
    {
      if Ahead(heap[j], heap[i]) {
        i := j;
      }
    }
  }

  /**
   Known capacities are exact, each is claimed in the heap, every page is known or to be measured, and
   the heap holds at most two claims for each known page.
   */
  ghost predicate Booked(pages: map<nat, Page>, capacity: map<nat, int>, heap: seq<Claim>, unmeasured: set<nat>) {
    && (forall p: nat :: p in capacity ==> p in pages && capacity[p] == Capacity(pages[p]) && Claim(capacity[p], p) in heap && p !in unmeasured)
    && (forall p: nat :: p in pages <==> p in capacity || p in unmeasured)
    && |heap| <= 2 * |capacity|
  }

  ghost predicate AllPages(pages: map<nat, Page>, count: nat, size: nat) {
    && (forall p: nat :: p in pages <==> p < count)
    && (forall p: nat :: p in pages ==> Ok(pages[p]) && pages[p].size == size)
  }

  lemma OneMorePage(pages: map<nat, Page>, count: nat, size: nat, q: Page)
    requires AllPages(pages, count, size) && Ok(q) && q.size == size
    ensures AllPages(pages[count := q], count + 1, size) && count !in pages
  {
    hide Ok;
  }

  /** The same but for one page, which is new or has changed. */
  ghost predicate BookedBut(pages: map<nat, Page>, capacity: map<nat, int>, heap: seq<Claim>, unmeasured: set<nat>, page: nat) {
    && (forall p: nat :: p in capacity && p != page ==>
          p in pages && capacity[p] == Capacity(pages[p]) && Claim(capacity[p], p) in heap && p !in unmeasured)
    && (forall p: nat :: p in pages && p != page <==> (p in capacity || p in unmeasured) && p != page)
    && |heap| <= 2 * |capacity|
  }

  ghost predicate ClaimsAll(capacity: map<nat, int>, heap: seq<Claim>) {
    forall p: nat :: p in capacity ==> Claim(capacity[p], p) in heap
  }

  lemma BookedApart(pages: map<nat, Page>, capacity: map<nat, int>, heap: seq<Claim>, unmeasured: set<nat>, page: nat, q: Page)
    requires Booked(pages, capacity, heap, unmeasured)
    ensures BookedBut(pages, capacity, heap, unmeasured, page)
    ensures BookedBut(pages[page := q], capacity, heap, unmeasured, page)
  {
    hide Capacity;
  }

  lemma BookedMeans(pages: map<nat, Page>, capacity: map<nat, int>, heap: seq<Claim>, unmeasured: set<nat>)
    requires Booked(pages, capacity, heap, unmeasured)
    ensures forall p: nat :: p in capacity ==> p in pages && capacity[p] == Capacity(pages[p]) && Claim(capacity[p], p) in heap && p !in unmeasured
    ensures forall p: nat :: p in pages <==> p in capacity || p in unmeasured
  {
  }

  /** One more claim, for the page whose capacity is noted. */
  lemma BookedAgain(pages: map<nat, Page>, capacity: map<nat, int>, heap: seq<Claim>, unmeasured: set<nat>, page: nat, c: int, heap': seq<Claim>)
    requires BookedBut(pages, capacity, heap, unmeasured, page) && page in pages && c == Capacity(pages[page])
    requires |heap'| <= 2 * |capacity[page := c]|
    requires heap' == heap + [Claim(c, page)] || ClaimsAll(capacity[page := c], heap')
    ensures Booked(pages, capacity[page := c], heap', unmeasured - {page})
  {
    hide Capacity;
    if heap' == heap + [Claim(c, page)] {
      assert heap'[|heap|] == Claim(c, page);
      assert forall x :: x in heap ==> x in heap';
    }
  }

  /** A stale claim is dropped. */
  lemma BookedStill(pages: map<nat, Page>, capacity: map<nat, int>, heap: seq<Claim>, unmeasured: set<nat>, i: nat)
    requires Booked(pages, capacity, heap, unmeasured)
    requires i < |heap| && (heap[i].page !in capacity || capacity[heap[i].page] != heap[i].capacity)
    ensures Booked(pages, capacity, heap[..i] + heap[i + 1..], unmeasured)
  {
    hide Capacity;
    DropStale(heap, i, capacity);
  }

  class HeapFile {
    const pageSize: nat
    var pages: map<nat, Page>
    var pageCount: nat
    var capacity: map<nat, int>
    var heap: seq<Claim>
    var unmeasured: set<nat>
    var active: nat

    ghost predicate PagesOk()
      reads this
    {
      pageSize >= HEADER_SIZE && AllPages(pages, pageCount, pageSize)
    }

    ghost predicate BookkeepingOk()
      reads this
    {
      Booked(pages, capacity, heap, unmeasured)
    }

    ghost predicate Valid()
      reads this
    {
      PagesOk() && BookkeepingOk() && active < pageCount
    }

    lemma FilePages()
      requires Valid()
      ensures pageSize >= HEADER_SIZE && AllPages(pages, pageCount, pageSize) && Booked(pages, capacity, heap, unmeasured) && active < pageCount
    {
      hide AllPages, Booked;
    }

    lemma FileIs()
      requires pageSize >= HEADER_SIZE && AllPages(pages, pageCount, pageSize) && BookkeepingOk() && active < pageCount
      ensures Valid()
    {
      hide AllPages, Booked;
    }

    /** The record a RID refers to. */
    function Fetch(rid: RID): Option<seq<Byte>>
      reads this
    {
      RecordAt(pages, rid)
    }

    /** A new file has one empty page. */
    constructor (pageSize: nat)
      requires pageSize >= HEADER_SIZE
      ensures Valid() && this.pageSize == pageSize && pageCount == 1
      ensures forall rid :: Fetch(rid) == None
    {
      this.pageSize, pages, pageCount := pageSize, map[0 := NewPage(pageSize)], 1;
      capacity, heap, unmeasured, active :=
        map[0 := Capacity(NewPage(pageSize))], [Claim(Capacity(NewPage(pageSize)), 0)], {}, 0;
      LiveBytesNone();
      new;
      assert heap[0] == Claim(capacity[0], 0);
    }

    /** Opening an existing file: nothing is known about any page yet. */
    method Reopen()
      requires PagesOk() && pageCount > 0
      modifies this`capacity, this`heap, this`unmeasured, this`active
      ensures Valid() && capacity == map[] && unmeasured == pages.Keys && active == pageCount - 1
    {
      capacity, heap, unmeasured, active := map[], [], pages.Keys, pageCount - 1;
    }

    method SetCapacity(page: nat, c: int)
      requires page in pages && c == Capacity(pages[page]) && BookedBut(pages, capacity, heap, unmeasured, page)
      modifies this`capacity, this`heap, this`unmeasured
      ensures BookkeepingOk() && unmeasured == old(unmeasured) - {page}
      ensures capacity == old(capacity)[page := c]
    {
      hide Booked, BookedBut, Capacity;
      ghost var known, claims, rest := capacity, heap, unmeasured;
      unmeasured := unmeasured - {page};
      capacity := capacity[page := c];
      heap := heap + [Claim(c, page)];
      if |heap| > 2 * |capacity| {
        RebuildHeap();
      }
      BookedAgain(pages, known, claims, rest, page, c, heap);
    }

    /** When stale claims pile up, start over with one claim a page. */
    method RebuildHeap()
      modifies this`heap
      ensures forall p: nat :: p in capacity ==> Claim(capacity[p], p) in heap
      ensures forall c :: c in heap ==> c.page in capacity && capacity[c.page] == c.capacity
      ensures |heap| == |capacity|
    {
      var todo := capacity.Keys;
      heap := [];
      while todo != {}
        invariant todo <= capacity.Keys
        invariant forall p: nat :: p in capacity && p !in todo ==> Claim(capacity[p], p) in heap
        invariant forall c :: c in heap ==> c.page in capacity && capacity[c.page] == c.capacity
        invariant |heap| + |todo| == |capacity.Keys|
        decreases todo
      {
        var p :| p in todo;
        todo := todo - {p};
        heap := heap + [Claim(capacity[p], p)];
        assert heap[|heap| - 1] == Claim(capacity[p], p);
      }
    }

    method MeasurePage(page: nat) returns (c: int)
      requires Valid() && page in pages
      modifies this`capacity, this`heap, this`unmeasured
      ensures Valid() && c == Capacity(pages[page]) && unmeasured == old(unmeasured) - {page}
      ensures capacity == old(capacity)[page := c]
    {
      hide Booked, BookedBut, Capacity, Ok;
      c := Capacity(pages[page]);
      BookedApart(pages, capacity, heap, unmeasured, page, pages[page]);
      SetCapacity(page, c);
    }

    /** Drop stale claims from the top; what is left on top is the largest known capacity. */
    method BestKnown(required: nat) returns (page: Option<nat>)
      requires Valid()
      modifies this`heap
      ensures Valid()
      ensures page.Some? ==> page.value in capacity && capacity[page.value] >= required && LargestKnown(capacity, page.value)
      ensures page.None? ==> forall p: nat :: p in capacity ==> capacity[p] < required
    {
      hide Booked, Capacity, Ok, LargestKnown;
      while heap != []
        invariant Valid()
        decreases |heap|
      {
        var i := Top(heap);
        var top := heap[i];
        BookedMeans(pages, capacity, heap, unmeasured);
        if top.page !in capacity || capacity[top.page] != top.capacity {
          BookedStill(pages, capacity, heap, unmeasured, i);
          heap := heap[..i] + heap[i + 1..];
        } else if top.capacity >= required {
          TopIsLargest(heap, i, capacity);
          return Some(top.page);
        } else {
          TopIsLargest(heap, i, capacity);
          return None;
        }
      }
      BookedMeans(pages, capacity, heap, unmeasured);
      return None;
    }

    /** A page with room for the record after compaction, or None when no page of the file has. */
    method FindPageWithRoomFor(data: seq<Byte>) returns (page: Option<nat>)
      requires Valid()
      modifies this`capacity, this`heap, this`unmeasured
      ensures Valid()
      ensures page.Some? ==> page.value in pages && Capacity(pages[page.value]) >= |data| + SLOT_SIZE
      ensures page.Some? ==> Preferred(pages, old(capacity), old(unmeasured), active, |data| + 4, page.value)
      ensures page.None? ==> forall p: nat :: p in pages ==> Capacity(pages[p]) < |data| + SLOT_SIZE
    {
      hide Ok, Capacity, Booked, LargestKnown;
      BookedMeans(pages, capacity, heap, unmeasured);
      var required := |data| + SLOT_SIZE;
      if active in capacity && capacity[active] >= required {
        return Some(active);
      }
      page := BestKnown(required);
      if page.Some? {
        return;
      }
      if active in unmeasured {
        var c := MeasurePage(active);
        if c >= required {
          return Some(active);
        }
      }
      while unmeasured != {}
        invariant Valid()
        invariant forall p: nat :: p in capacity ==> capacity[p] < required
        invariant unmeasured <= old(unmeasured)
        decreases unmeasured
      {
        var p :| p in unmeasured;
        BookedMeans(pages, capacity, heap, unmeasured);
        var c := MeasurePage(p);
        if c >= required {
          return Some(p);
        }
      }
      BookedMeans(pages, capacity, heap, unmeasured);
      return None;
    }

    method NewFilePage() returns (page: nat)
      requires Valid()
      modifies this`pages, this`pageCount, this`capacity, this`heap, this`unmeasured
      ensures Valid() && page == old(pageCount) && pageCount == old(pageCount) + 1
      ensures pages == old(pages)[page := NewPage(pageSize)]
    {
      hide *;
      var q := NewPage(pageSize);
      FilePages();
      NewPageOk(pageSize);
      OneMorePage(pages, pageCount, pageSize, q);
      BookedApart(pages, capacity, heap, unmeasured, pageCount, q);
      page := pageCount;
      pageCount := pageCount + 1;
      pages := pages[page := q];
      SetCapacity(page, Capacity(q));
      FileIs();
    }

    /**
     Store a record under a RID that never referred to anything. All other records stay where
     they are. The file grows only when no page has room, compaction included.
     */
    method InsertRecord(data: seq<Byte>) returns (rid: Option<RID>)
      requires Valid()
      modifies this
      ensures Valid()
      ensures rid.None? <==> 4 + 4 + |data| > pageSize
      ensures rid.None? ==> pages == old(pages)
      ensures rid.Some? ==> Placed(old(pages), pages, rid.value, data)
      ensures rid.Some? ==>
                (pageCount == old(pageCount) + 1 <==> forall p :: p in old(pages) ==> Capacity(old(pages)[p]) < |data| + 4)
      ensures rid.Some? ==> old(pageCount) <= pageCount <= old(pageCount) + 1
      ensures rid.Some? ==> active == rid.value.pageId
      ensures rid.Some? && pageCount == old(pageCount) ==>
                Preferred(old(pages), old(capacity), old(unmeasured), old(active), |data| + 4, active)
    {
      LargestRecord(pageSize);
      hide Ok, Capacity, MaxRecordSize, Placed, RecordAt, Booked, Preferred, SlotsOn;
      if |data| > MaxRecordSize(pageSize) {
        return None;
      }
      ghost var before := pages;
      var found := FindPageWithRoomFor(data);
      var page: nat;
      ghost var mid;
      if found.None? {
        page := NewFilePage();
        NewPageIs(pageSize, data);
      } else {
        page := found.value;
      }
      mid := pages;
      var r := StoreOn(page, data);
      rid := Some(r);
      StoredOn(before, mid, pages, page, pageSize, data);
    }

    /** Write the record to a page that has room for it and note the capacity that is left. */
    method StoreOn(page: nat, data: seq<Byte>) returns (rid: RID)
      requires Valid() && page in pages && Capacity(pages[page]) >= |data| + SLOT_SIZE
      modifies this
      ensures Valid() && pageCount == old(pageCount) && rid == RID(page, |old(pages)[page].slots|) && active == page
      ensures page in pages && pages == old(pages)[page := pages[page]]
      ensures pages[page].slots == old(pages)[page].slots + [Some(data)]
    {
      hide Ok, Capacity, Booked, BookedBut;
      active := page;
      rid := RID(page, |pages[page].slots|);
      var p := PlaceRecord(pages[page], data);
      BookedApart(pages, capacity, heap, unmeasured, page, p);
      pages := pages[page := p];
      SetCapacity(page, Capacity(p));
    }

    /** Remove one record; everything else stays. */
    method RemoveRecord(rid: RID) returns (removed: bool)
      requires Valid()
      modifies this
      ensures Valid() && pageCount == old(pageCount)
      ensures removed <==> old(Fetch(rid)).Some?
      ensures Fetch(rid) == None
      ensures forall other :: other != rid ==> RecordAt(pages, other) == RecordAt(old(pages), other)
      ensures !removed ==> pages == old(pages)
      ensures SlotCounts(pages) == SlotCounts(old(pages))
    {
      hide Ok, Capacity, Booked, BookedBut;
      if rid.pageId < 0 || rid.pageId >= pageCount {
        return false;
      }
      DeleteIs(pages[rid.pageId], rid.slot);
      removed := Read(pages[rid.pageId], rid.slot).Some?;
      if removed {
        BookedApart(pages, capacity, heap, unmeasured, rid.pageId, Delete(pages[rid.pageId], rid.slot));
        pages := pages[rid.pageId := Delete(pages[rid.pageId], rid.slot)];
        SetCapacity(rid.pageId, Capacity(pages[rid.pageId]));
      }
    }

    /** Every stored record exactly once, by page and slot. */
    method Scan() returns (found: seq<Stored>)
      requires Valid()
      ensures forall x :: x in found <==> Fetch(x.rid) == Some(x.data)
      ensures forall i, j :: 0 <= i < j < |found| ==>
                var a, b := found[i].rid, found[j].rid; a.pageId < b.pageId || (a.pageId == b.pageId && a.slot < b.slot)
    {
      hide Ok;
      found := [];
      for p := 0 to pageCount
        invariant forall i :: 0 <= i < |found| ==> Fetch(found[i].rid) == Some(found[i].data) && found[i].rid.pageId < p
        invariant forall rid :: Fetch(rid).Some? && rid.pageId < p ==> Stored(rid, Fetch(rid).value) in found
        invariant forall i, j :: 0 <= i < j < |found| ==> RidBefore(found[i].rid, found[j].rid)
      {
        found := ScanPage(p, found);
      }
    }

    method ScanPage(p: nat, before: seq<Stored>) returns (found: seq<Stored>)
      requires p in pages
      requires forall i :: 0 <= i < |before| ==> Fetch(before[i].rid) == Some(before[i].data) && before[i].rid.pageId < p
      requires forall i, j :: 0 <= i < j < |before| ==> RidBefore(before[i].rid, before[j].rid)
      ensures before <= found
      ensures forall i :: 0 <= i < |found| ==> Fetch(found[i].rid) == Some(found[i].data) && found[i].rid.pageId <= p
      ensures forall rid :: Fetch(rid).Some? && rid.pageId == p ==> Stored(rid, Fetch(rid).value) in found
      ensures forall i, j :: 0 <= i < j < |found| ==> RidBefore(found[i].rid, found[j].rid)
    {
      found := before;
      for s := 0 to |pages[p].slots|
        invariant before <= found
        invariant forall i :: 0 <= i < |found| ==> Fetch(found[i].rid) == Some(found[i].data)
        invariant forall i :: 0 <= i < |found| ==> RidBefore(found[i].rid, RID(p, s))
        invariant forall rid :: Fetch(rid).Some? && rid.pageId == p && rid.slot < s ==> Stored(rid, Fetch(rid).value) in found
        invariant forall i, j :: 0 <= i < j < |found| ==> RidBefore(found[i].rid, found[j].rid)
      {
        var data := Read(pages[p], s);
        if data.Some? {
          var e := Stored(RID(p, s), data.value);
          found := found + [e];
          assert found[|found| - 1] == e;
        }
      }
    }
  }

  /** Insert directly when there is room, else after compaction; one of the two succeeds. */
  method PlaceRecord(p: Page, data: seq<Byte>) returns (q: Page)
    requires Ok(p) && Capacity(p) >= |data| + SLOT_SIZE
    ensures Ok(q) && q.size == p.size && q.slots == p.slots + [Some(data)]
  {
    if HasRoom(p, data) {
      InsertIs(p, data);
      q := Insert(p, data);
    } else {
      CompactIs(p);
      RoomAfterCompact(p, data);
      q := Compact(p);
      InsertIs(q, data);
      q := Insert(q, data);
    }
  }

  lemma NewPageOk(size: nat)
    requires size >= HEADER_SIZE
    ensures Ok(NewPage(size)) && NewPage(size).size == size
  {
    LiveBytesNone();
  }

  lemma LargestRecord(size: nat)
    ensures MaxRecordSize(size) == size - 8
  {
  }

  /** The record went to a page of the file, or to a new one. */
  lemma StoredOn(before: map<nat, Page>, mid: map<nat, Page>, after: map<nat, Page>, page: nat, size: nat, data: seq<Byte>)
    requires mid == if page in before then before else before[page := NewPage(size)]
    requires page in mid && page in after && after == mid[page := after[page]] && after[page].slots == mid[page].slots + [Some(data)]
    ensures Placed(before, after, RID(page, |mid[page].slots|), data)
  {
    hide Placed;
    PlacedThere(before, after, page, data);
  }

  lemma NewPageIs(size: nat, data: seq<Byte>)
    requires |data| <= MaxRecordSize(size)
    ensures Ok(NewPage(size)) && Capacity(NewPage(size)) >= |data| + SLOT_SIZE
  {
    LiveBytesNone();
  }

  ghost predicate LargestKnown(capacity: map<nat, int>, page: nat)
    requires page in capacity
  {
    forall p: nat :: p in capacity ==> capacity[p] < capacity[page] || (capacity[p] == capacity[page] && page <= p)
  }

  /**
   Which page a record goes to: the active one if it is known to have room, else of the known ones the
   one with most room, the first of several, else the active one, else any page not measured yet.
   */
  ghost predicate Preferred(pages: map<nat, Page>, capacity: map<nat, int>, unmeasured: set<nat>, active: nat, required: nat, page: nat) {
    if active in capacity && capacity[active] >= required then page == active
    else if exists p: nat :: p in capacity && capacity[p] >= required
    then page in capacity && capacity[page] >= required && LargestKnown(capacity, page)
    else if active in unmeasured && active in pages && Capacity(pages[active]) >= required then page == active
    else page in unmeasured && page in pages && Capacity(pages[page]) >= required
  }

  lemma DropStale(heap: seq<Claim>, i: nat, capacity: map<nat, int>)
    requires i < |heap| && (heap[i].page !in capacity || capacity[heap[i].page] != heap[i].capacity)
    requires forall p: nat :: p in capacity ==> Claim(capacity[p], p) in heap
    ensures forall p: nat :: p in capacity ==> Claim(capacity[p], p) in heap[..i] + heap[i + 1..]
  {
    var rest := heap[..i] + heap[i + 1..];
    forall p | p in capacity
      ensures Claim(capacity[p], p) in rest
    {
      var j :| 0 <= j < |heap| && heap[j] == Claim(capacity[p], p);
      assert rest[if j < i then j else j - 1] == heap[j];
    }
  }

  lemma TopIsLargest(heap: seq<Claim>, i: nat, capacity: map<nat, int>)
    requires i < |heap| && forall j :: 0 <= j < |heap| ==> !Ahead(heap[j], heap[i])
    requires forall p: nat :: p in capacity ==> Claim(capacity[p], p) in heap
    ensures forall p: nat :: p in capacity ==> capacity[p] <= heap[i].capacity
    ensures heap[i].page in capacity && capacity[heap[i].page] == heap[i].capacity ==> LargestKnown(capacity, heap[i].page)
  {
    forall p | p in capacity
      ensures capacity[p] < heap[i].capacity || (capacity[p] == heap[i].capacity && heap[i].page <= p)
    {
      var j :| 0 <= j < |heap| && heap[j] == Claim(capacity[p], p);
    }
  }

  /**
   Over any run of inserts and removes, every RID that is handed out is new: it differs from all
   RIDs handed out before it, removed ones included, and from all that existed at the start.
   A scan after the run lists exactly the records that the run leaves of those at the start.
   */
  method Replay(file: HeapFile, requests: seq<Request>) returns (given: seq<Option<RID>>, found: seq<Stored>)
    requires file.Valid()
    modifies file
    ensures file.Valid() && |given| == |requests|
    ensures forall i :: 0 <= i < |requests| ==>
              (given[i].Some? <==> requests[i].Store? && 4 + 4 + |requests[i].data| <= file.pageSize)
    ensures forall i, j :: 0 <= i < j < |given| && given[i].Some? && given[j].Some? ==> given[i] != given[j]
    ensures forall j :: 0 <= j < |given| && given[j].Some? ==> !Issued(SlotCounts(old(file.pages)), given[j].value)
    ensures Holds(file.pages, After(RecordsOf(old(file.pages)), requests, given))
    ensures Lists(found, After(RecordsOf(old(file.pages)), requests, given))
    ensures forall i, j :: 0 <= i < j < |found| ==> RidBefore(found[i].rid, found[j].rid)
  {
    hide Booked, Ok, Preferred, Capacity, Placed, SlotCounts, StoresAt, Issued, MaxRecordSize, Holds, After, RecordsOf, Lists, RecordAt;
    given := [];
    ghost var start := file.pages;
    ghost var states := [start];
    assert requests[..0] == [];
    for i := 0 to |requests|
      invariant file.Valid() && |given| == i
      invariant Runs(states, requests[..i], given) && states[0] == start && states[i] == file.pages
      invariant forall j :: 0 <= j < i ==>
                  (given[j].Some? <==> requests[j].Store? && 4 + 4 + |requests[j].data| <= file.pageSize)
    {
      ghost var before := file.pages;
      var rid: Option<RID> := None;
      match requests[i] {
        case Store(data) =>
          rid := file.InsertRecord(data);
          assert Answered(before, file.pages, requests[i], rid);
        case Drop(gone) =>
          var _ := file.RemoveRecord(gone);
          assert file.Fetch(gone) == None;
          assert Answered(before, file.pages, requests[i], rid);
      }
      RunGrows(states, requests[..i], given, file.pages, requests[i], rid);
      assert requests[..i + 1] == requests[..i] + [requests[i]];
      states := states + [file.pages];
      given := given + [rid];
    }
    assert requests[..|requests|] == requests;
    RunGivesNew(states, requests, given);
    RunMeans(states, requests, given, RecordsOf(start));
    found := file.Scan();
    ListsHeld(found, file.pages, After(RecordsOf(start), requests, given));
  }
}
