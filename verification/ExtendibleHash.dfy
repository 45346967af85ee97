/** The extendible hash index over pages (engine/indexes/extendible_hash.py). */
module ExtendibleHashIndex {
  import opened Common
  import opened HashPages
  import opened HashTable

  datatype Outcome = Inserted | KeyTooLarge | DirectoryFull

  function CeilDiv(a: int, b: int): int
    requires b > 0
  {
    -((-a) / b)
  }

  predicate DirectoryFits(pageSize: nat, depth: nat)
    requires SlotsPerPage(pageSize) > 0
  {
    CeilDiv(Pow2(depth), SlotsPerPage(pageSize)) <= MaxDirectoryPages(pageSize)
  }

  lemma FitsMonotone(pageSize: nat, g: nat, h: nat)
    requires SlotsPerPage(pageSize) > 0 && g <= h && DirectoryFits(pageSize, h)
    ensures DirectoryFits(pageSize, g)
  {
    PowMonotone(g, h);
    FloorMonotone(-(Pow2(h) as int), -(Pow2(g) as int), SlotsPerPage(pageSize));
  }

  /** How deep the directory can become by doubling from depth g. */
  function Reach(pageSize: nat, g: nat, maxDepth: nat): (r: nat)
    requires SlotsPerPage(pageSize) > 0 && g <= maxDepth
    ensures g <= r <= maxDepth
    ensures DirectoryFits(pageSize, maxDepth) ==> r == maxDepth
    decreases maxDepth - g
  {
    if g < maxDepth && DirectoryFits(pageSize, g + 1) then Reach(pageSize, g + 1, maxDepth) else
      if g < maxDepth && DirectoryFits(pageSize, maxDepth) then FitsMonotone(pageSize, g + 1, maxDepth); g else g
  }

  /** Splitting down to depth d would still leave no room for the key in the half it belongs to. */
  predicate NoRoomAt(T: Table, key: Key, d: nat)
    requires |T.dir| > 0
  {
    Bytes(Filter(HomeEntries(T, key), SharesSuffix(T.hash, key, d))) + EntrySize(key) > T.pageSize - BUCKET_HEADER_SIZE
  }

  // ----- when the directory is full, in numbers -----

  /** The directory pages that the metadata page can list have a slot for every suffix of d bits. */
  ghost predicate DirectoryRoom(pageSize: nat, d: nat) {
    Pow2(d) <= ((pageSize - 9) / 4) * (pageSize / 4)
  }

  /** What the entries take on a page: two bytes for the length of the key, the key, six bytes for the RID. */
  ghost function Space(es: seq<Entry>): nat {
    if es == [] then 0 else Space(es[..|es| - 1]) + 2 + |es[|es| - 1].key| + 6
  }

  /** The entries of the home page that share d bits of the hash with the key leave no room for it behind the nine header bytes. */
  ghost predicate Crowded(T: Table, key: Key, d: nat)
    requires |T.dir| > 0
  {
    9 + Space(Filter(HomeEntries(T, key), SharesSuffix(T.hash, key, d))) + 2 + |key| + 6 > T.pageSize
  }

  lemma {:induction false} BytesIsSpace(es: seq<Entry>)
    ensures Bytes(es) == Space(es)
  {
    if es != [] {
      BytesIsSpace(es[..|es| - 1]);
    }
  }

  lemma CeilDivWithin(n: nat, m: nat, max: int)
    requires m > 0
    ensures CeilDiv(n, m) <= max <==> n <= max * m
  {
    var q: int := (-(n as int)) / m;
    var r := (-(n as int)) % m;
    assert -(n as int) == m * q + r && 0 <= r < m;
    assert n == m * (-q) - r;
    if -q <= max {
      assert m * (max - (-q)) >= 0 by {
        TimesMonotone(m, 0, max + q);
      }
      assert m * (max - (-q)) == m * max - m * (-q);
    } else {
      assert m * (-q - max) >= m by {
        TimesAtLeastOne(m, -q - max);
      }
      assert m * (-q - max) == m * (-q) - m * max;
    }
  }

  lemma FitsIsRoom(pageSize: nat, d: nat)
    requires SlotsPerPage(pageSize) > 0
    ensures DirectoryFits(pageSize, d) <==> DirectoryRoom(pageSize, d)
  {
    CeilDivWithin(Pow2(d), SlotsPerPage(pageSize), MaxDirectoryPages(pageSize));
  }

  lemma NoRoomIsCrowded(T: Table, key: Key, d: nat)
    requires |T.dir| > 0
    ensures NoRoomAt(T, key, d) <==> Crowded(T, key, d)
  {
    BytesIsSpace(Filter(HomeEntries(T, key), SharesSuffix(T.hash, key, d)));
  }

  /** Where doubling ends. */
  lemma {:induction false} ReachStops(pageSize: nat, g: nat, maxDepth: nat)
    requires SlotsPerPage(pageSize) > 0 && g <= maxDepth
    ensures Reach(pageSize, g, maxDepth) < maxDepth ==> !DirectoryFits(pageSize, Reach(pageSize, g, maxDepth) + 1)
    ensures forall d :: g < d <= Reach(pageSize, g, maxDepth) ==> DirectoryFits(pageSize, d)
    decreases maxDepth - g
  {
    if g < maxDepth && DirectoryFits(pageSize, g + 1) {
      ReachStops(pageSize, g + 1, maxDepth);
    }
  }

  /** At some depth the directory can grow no more, and there the key finds no room. */
  ghost predicate FullAt(T: Table, key: Key, d: nat)
    requires |T.dir| > 0
  {
    T.depth <= d < T.maxDepth && !DirectoryRoom(T.pageSize, d + 1) && Crowded(T, key, d)
  }

  lemma FullWhen(T: Table, key: Key)
    requires |T.dir| > 0 && SlotsPerPage(T.pageSize) > 0 && T.depth <= T.maxDepth
    ensures var d := Reach(T.pageSize, T.depth, T.maxDepth);
            d < T.maxDepth && NoRoomAt(T, key, d) <==> exists d: nat :: FullAt(T, key, d)
  {
    hide DirectoryFits, NoRoomAt, Crowded, DirectoryRoom, SlotsPerPage;
    var r := Reach(T.pageSize, T.depth, T.maxDepth);
    ReachStops(T.pageSize, T.depth, T.maxDepth);
    hide Reach;
    if r < T.maxDepth && NoRoomAt(T, key, r) {
      FitsIsRoom(T.pageSize, r + 1);
      NoRoomIsCrowded(T, key, r);
      assert FullAt(T, key, r);
    }
    if d: nat :| FullAt(T, key, d) {
      FitsIsRoom(T.pageSize, d + 1);
      NoRoomIsCrowded(T, key, d);
      assert d >= r;
      if !NoRoomAt(T, key, r) {
        RoomStays(T, key, r, d);
      }
    }
  }

  lemma ReachEnds(pageSize: nat, g: nat, maxDepth: nat)
    requires SlotsPerPage(pageSize) > 0 && g < maxDepth && !DirectoryFits(pageSize, g + 1)
    ensures Reach(pageSize, g, maxDepth) == g
  {
  }

  lemma ReachStep(pageSize: nat, g: nat, maxDepth: nat)
    requires SlotsPerPage(pageSize) > 0 && g < maxDepth && DirectoryFits(pageSize, g + 1)
    ensures Reach(pageSize, g, maxDepth) == Reach(pageSize, g + 1, maxDepth)
  {
  }

  lemma RoomIs(T: Table, key: Key, page: Page, d: nat)
    requires |T.dir| > 0 && Measured(T.pageSize, page)
    requires page.entries == Filter(HomeEntries(T, key), SharesSuffix(T.hash, key, d))
    ensures HasRoom(T.pageSize, page, key) <==> !NoRoomAt(T, key, d)
  {
  }

  lemma RoomStays(T: Table, key: Key, l: nat, d: nat)
    requires |T.dir| > 0 && l <= d && !NoRoomAt(T, key, l)
    ensures !NoRoomAt(T, key, d)
  {
    SharingShrinks(HomeEntries(T, key), T.hash, key, l, d);
  }

  lemma FloorMonotone(a: int, b: int, m: nat)
    requires m > 0 && a <= b
    ensures a / m <= b / m
  {
    var p, q := a / m, b / m;
    assert a == m * p + a % m && b == m * q + b % m;
    assert m * (p - q) == m * p - m * q;
    if p > q {
      TimesAtLeastOne(m, p - q);
    }
  }

  lemma CeilDivCovers(a: nat, b: nat)
    requires b > 0
    ensures CeilDiv(a, b) >= 0 && CeilDiv(a, b) * b >= a
  {
    var q: int := (-(a as int)) / b;
    assert -(a as int) == b * q + (-(a as int)) % b;
    assert (-q) * b == -(b * q);
    if q > 0 {
      TimesAtLeastOne(b, q);
    }
  }

  /** Which directory page holds a slot, and where on it. */
  function PageNo(slot: nat, spp: nat): nat
    requires spp > 0
  {
    slot / spp
  }

  function PlaceNo(slot: nat, spp: nat): nat
    requires spp > 0
  {
    slot % spp
  }

  // ----- the directory spread over its pages -----

  ghost predicate SlotStored(pages: map<nat, Page>, dirPages: seq<nat>, spp: nat, d: seq<nat>, i: nat)
    requires i < |d| && spp > 0
  {
    && PageNo(i, spp) < |dirPages| && dirPages[PageNo(i, spp)] in pages && pages[dirPages[PageNo(i, spp)]].Directory?
    && PlaceNo(i, spp) < |pages[dirPages[PageNo(i, spp)]].slots|
    && pages[dirPages[PageNo(i, spp)]].slots[PlaceNo(i, spp)] == d[i]
  }

  ghost predicate DirectoryPage(pages: map<nat, Page>, spp: nat, p: nat) {
    p in pages && pages[p].Directory? && |pages[p].slots| == spp
  }

  /** The directory pages hold the sequence d, slot after slot. */
  ghost predicate Stored(pages: map<nat, Page>, dirPages: seq<nat>, spp: nat, d: seq<nat>) {
    && spp > 0
    && (forall a {:trigger dirPages[a]} :: 0 <= a < |dirPages| ==> DirectoryPage(pages, spp, dirPages[a]))
    && (forall a, b :: 0 <= a < b < |dirPages| ==> dirPages[a] != dirPages[b])
    && (forall i {:trigger SlotStored(pages, dirPages, spp, d, i)} :: 0 <= i < |d| ==> SlotStored(pages, dirPages, spp, d, i))
  }

  /** Bucket pages, and which pages there are, did not change. */
  ghost predicate BucketPagesSame(pages: map<nat, Page>, pages': map<nat, Page>) {
    && (forall p :: p in pages && pages[p].Bucket? ==> p in pages' && pages'[p] == pages[p])
    && (forall p :: p in pages' && pages'[p].Bucket? ==> p in pages && pages[p].Bucket?)
  }

  lemma PageOfSlot(i: nat, spp: nat, n: nat)
    requires spp > 0 && i < n * spp
    ensures PageNo(i, spp) < n && PlaceNo(i, spp) < spp
  {
    var q := i / spp;
    assert i == spp * q + i % spp;
    assert n * spp == spp * n;
    if q >= n {
      TimesMonotone(spp, n, q);
    }
  }

  lemma PlacesDiffer(i: nat, j: nat, spp: nat)
    requires spp > 0 && i != j
    ensures PageNo(i, spp) != PageNo(j, spp) || PlaceNo(i, spp) != PlaceNo(j, spp)
  {
    assert i == spp * (i / spp) + i % spp && j == spp * (j / spp) + j % spp;
  }

  lemma {:induction false} TimesMonotone(m: nat, a: nat, b: nat)
    requires a <= b
    ensures m * a <= m * b
    decreases b
  {
    if a < b {
      TimesMonotone(m, a, b - 1);
      assert m * b == m * (b - 1) + m;
    }
  }

  lemma WriteKeepsStored(pages: map<nat, Page>, dirPages: seq<nat>, spp: nat, d: seq<nat>, slot: nat, id: nat,
                         pages': map<nat, Page>, d': seq<nat>)
    requires Stored(pages, dirPages, spp, d) && slot <= |d| && slot < |dirPages| * spp
    requires PageNo(slot, spp) < |dirPages| && PlaceNo(slot, spp) < spp && DirectoryPage(pages, spp, dirPages[PageNo(slot, spp)])
    requires pages' == pages[dirPages[PageNo(slot, spp)] :=
                         Directory(pages[dirPages[PageNo(slot, spp)]].slots[PlaceNo(slot, spp) := id])]
    requires d' == if slot < |d| then d[slot := id] else d + [id]
    ensures Stored(pages', dirPages, spp, d')
  {
    hide PageNo, PlaceNo;
    forall i: nat | i < |d'|
      ensures SlotStored(pages', dirPages, spp, d', i)
    {
      if i != slot {
        PlacesDiffer(i, slot, spp);
        assert SlotStored(pages, dirPages, spp, d, i);
      }
    }
    forall a | 0 <= a < |dirPages|
      ensures DirectoryPage(pages', spp, dirPages[a])
    {
      assert DirectoryPage(pages, spp, dirPages[a]);
    }
  }

  lemma GrowKeepsStored(pages: map<nat, Page>, dirPages: seq<nat>, spp: nat, d: seq<nat>, id: nat, slots: seq<nat>)
    requires Stored(pages, dirPages, spp, d) && id !in pages && |slots| == spp
    ensures Stored(pages[id := Directory(slots)], dirPages + [id], spp, d)
  {
    hide PageNo, PlaceNo;
    var pages', dirPages' := pages[id := Directory(slots)], dirPages + [id];
    forall a | 0 <= a < |dirPages'|
      ensures DirectoryPage(pages', spp, dirPages'[a])
      ensures a < |dirPages| ==> dirPages'[a] != id
    {
      if a < |dirPages| {
        assert DirectoryPage(pages, spp, dirPages[a]);
      }
    }
    forall i: nat | i < |d|
      ensures SlotStored(pages', dirPages', spp, d, i)
    {
      assert SlotStored(pages, dirPages, spp, d, i);
    }
  }

  /** Writing pages of other kinds leaves the directory alone. */
  lemma StoredFrame(pages: map<nat, Page>, pages': map<nat, Page>, dirPages: seq<nat>, spp: nat, d: seq<nat>)
    requires Stored(pages, dirPages, spp, d)
    requires forall p :: p in pages && pages[p].Directory? ==> p in pages' && pages'[p] == pages[p]
    ensures Stored(pages', dirPages, spp, d)
  {
    hide PageNo, PlaceNo;
    forall a | 0 <= a < |dirPages|
      ensures DirectoryPage(pages', spp, dirPages[a])
    {
      assert DirectoryPage(pages, spp, dirPages[a]);
    }
    forall i: nat | i < |d|
      ensures SlotStored(pages', dirPages, spp, d, i)
    {
      assert SlotStored(pages, dirPages, spp, d, i);
    }
  }

  // ----- reading a page -----

  function RidsOf(es: seq<Entry>, key: Key): seq<RID> {
    if es == [] then []
    else RidsOf(es[..|es| - 1], key) + if es[|es| - 1].key == key then [es[|es| - 1].rid] else []
  }

  lemma {:induction false} RidsCount(es: seq<Entry>, key: Key, rid: RID)
    ensures multiset(RidsOf(es, key))[rid] == multiset(es)[Entry(key, rid)]
  {
    if es != [] {
      var front, last := es[..|es| - 1], es[|es| - 1];
      RidsCount(front, key, rid);
      assert es == front + [last];
      assert last == Entry(key, rid) <==> last.key == key && last.rid == rid;
    }
  }

  lemma NoneBetween(i: nat, j: nat, step: nat)
    requires step > 0 && i < j < i + step
    ensures i % step != j % step
  {
    if i % step == j % step {
      assert i == step * (i / step) + i % step && j == step * (j / step) + j % step;
      SameQuotient(step, 0, j - i, j / step - i / step, 0);
    }
  }

  lemma MainPage(T: Table, b: nat)
    requires Inv(T) && b in T.buckets
    ensures b in T.pages && T.pages[b].Bucket? && Measured(T.pageSize, T.pages[b])
  {
    assert GroupOk(T, b) && PageOk(T, b, 0);
  }

  lemma DirectoryLength(T: Table)
    requires Inv(T)
    ensures |T.dir| == Pow2(T.depth) && T.depth <= T.maxDepth
  {
  }

  lemma HomeBucket(T: Table, key: Key) returns (b: nat)
    requires Inv(T)
    ensures |T.dir| > 0 && b == T.dir[T.hash(key) % |T.dir|] && b in T.pages && T.pages[b].Bucket?
    ensures HomeEntries(T, key) == Filter(HomeEntries(T, key), SharesSuffix(T.hash, key, Depth(T.pages, b)))
  {
    hide Filter, SharesSuffix, Pow2;
    b := Lookup(T, key);
    MainPage(T, b);
    HomeSharesSuffix(T, key, b);
  }

  lemma LabelWithin(T: Table, b: nat)
    requires Inv(T) && b in T.buckets && b in T.pages && T.pages[b].Bucket?
    ensures T.pages[b].depth <= T.depth <= T.maxDepth
  {
    assert GroupOk(T, b);
  }

  /** In a directory twice over a hash is looked up in a slot with the same bucket. */
  lemma TwinSlot(d: seq<nat>, h: nat)
    requires |d| > 0
    ensures (d + d)[h % |d + d|] == d[h % |d|]
  {
    OneMoreBit(h, |d|);
  }

  lemma SameBucketPage(pages: map<nat, Page>, pages': map<nat, Page>, b: nat)
    requires BucketPagesSame(pages, pages') && b in pages && pages[b].Bucket?
    ensures b in pages' && pages'[b] == pages[b]
  {
  }

  /** The slot's remainder by a power of two. */
  predicate EndsIn(i: nat, m: nat, s: nat) {
    m > 0 && i % m == s
  }

  /** The state after a split, directory rewritten, is consistent again. */
  lemma SplitDone(before: Table, b: nat, slot: nat, n: nat, p0: Page, p1: Page, after: Table, key: Key)
    requires Inv(before) && slot < |before.dir| && b == before.dir[slot] && b == before.dir[before.hash(key) % |before.dir|]
    requires b in before.buckets && b in before.pages && before.pages[b].Bucket?
    requires before.pages[b].depth < before.depth
    requires n !in before.pages && n !in before.buckets && n != NO_OVERFLOW
    requires p0.Bucket? && p1.Bucket? && Measured(before.pageSize, p0) && Measured(before.pageSize, p1)
    requires p0.depth == before.pages[b].depth + 1 && p1.depth == before.pages[b].depth + 1
    requires p0.overflow == before.pages[b].overflow && p1.overflow == NO_OVERFLOW
    requires p0.entries == Filter(before.pages[b].entries, BitIs(before.hash, before.pages[b].depth, 0))
    requires p1.entries == Filter(before.pages[b].entries, BitIs(before.hash, before.pages[b].depth, 1))
    requires |after.dir| == |before.dir|
    requires var l := before.pages[b].depth; var s := slot % Pow2(l);
             && (forall i :: 0 <= i < |before.dir| ==>
                  after.dir[i] == if EndsIn(i, Pow2(l + 1), s + Pow2(l)) then n else before.dir[i])
             && after == before.(pages := after.pages, dir := after.dir,
                                 buckets := before.buckets[b := Group(s, [b])][n := Group(s + Pow2(l), [n])])
    requires BucketPagesSame(before.pages[b := p0][n := p1], after.pages)
    ensures Inv(after) && Depth(after.pages, after.dir[before.hash(key) % |after.dir|]) == before.pages[b].depth + 1
    ensures HomeEntries(after, key) == Filter(before.pages[b].entries,
                                              BitIs(before.hash, before.pages[b].depth, NextBit(before.hash, key, before.pages[b].depth)))
  {
    hide Held, Measured, KeysOk, Apart, ContentsOk, Filter;
    assert GroupOk(before, b) && Points(before, slot, b) && PageOk(before, b, 0);
    var sorted := after.(pages := before.pages[b := p0][n := p1]);
    assert SplitInto(before, b, n, p0, p1, sorted);
    var q, q' := SplitHome(before, b, n, p0, p1, sorted, key);
    hide GroupOk, Points, PageOk;
    SplitKeepsInv(before, b, n, p0, p1, sorted);
    hide SplitInto, Inv;
    OtherPagesKeepInv(sorted, after);
  }

  /** The pages of a file are numbered from 0, without gaps. */
  ghost predicate Allocated(pages: map<nat, Page>, pageCount: nat) {
    forall p: nat :: p in pages <==> p < pageCount
  }

  lemma AllocatedRewritten(pages: map<nat, Page>, pageCount: nat, id: nat, p: Page)
    requires Allocated(pages, pageCount) && id in pages
    ensures Allocated(pages[id := p], pageCount)
  {
  }

  lemma AllocatedThree(pages: map<nat, Page>)
    requires pages.Keys == {0, 1, 2}
    ensures Allocated(pages, 3)
  {
    forall p: nat
      ensures p in pages <==> p < 3
    {
      assert p in pages <==> p in {0, 1, 2};
    }
  }

  class ExtendibleHash {
    const pageSize: nat
    const hash: Key -> nat
    var pages: map<nat, Page>
    var pageCount: nat
    var globalDepth: nat
    var maxDepth: nat
    var directoryPages: seq<nat>
    ghost var dir: seq<nat>
    ghost var buckets: map<nat, Group>
    ghost var contents: multiset<Entry>

    ghost function T(): Table
      reads this
    {
      Table(pageSize, hash, maxDepth, pages, globalDepth, dir, buckets, contents)
    }

    /** Can a directory of this depth be listed in the metadata page? */
    predicate Fits(depth: nat)
      requires SlotsPerPage(pageSize) > 0
    {
      DirectoryFits(pageSize, depth)
    }

    ghost predicate PagesOk()
      reads this
    {
      && pageSize >= META_HEADER_SIZE + PAGE_ID_SIZE
      && Allocated(pages, pageCount)
      && (forall b :: b in buckets ==> b in pages)
      && 0 in pages && pages[0].Metadata?
    }

    ghost predicate Valid()
      reads this
    {
      && PagesOk() && Inv(T())
      && |directoryPages| <= MaxDirectoryPages(pageSize)
      && |dir| <= |directoryPages| * SlotsPerPage(pageSize)
      && Stored(pages, directoryPages, SlotsPerPage(pageSize), dir)
      && pages[0] == Metadata(globalDepth, maxDepth, directoryPages)
    }

    lemma ValidInv()
      requires Valid()
      ensures Inv(T()) && SlotsPerPage(pageSize) > 0
    {
      hide Inv, Stored, MaxDirectoryPages;
    }

    /** A new, empty index; max_depth must fit in the byte the metadata page has for it. */
    constructor (pageSize: nat, hash: Key -> nat, maxDepth: nat)
      requires pageSize >= META_HEADER_SIZE + PAGE_ID_SIZE && maxDepth <= 0xFF
      ensures Valid() && contents == multiset{} && globalDepth == 0
      ensures this.pageSize == pageSize && this.hash == hash && this.maxDepth == maxDepth
    {
      this.pageSize, this.hash, this.maxDepth, this.globalDepth := pageSize, hash, maxDepth, 0;
      var slots := seq(SlotsPerPage(pageSize), i => 0);
      this.directoryPages := [1];
      this.pageCount := 3;
      this.pages := map[0 := Metadata(0, maxDepth, [1]), 1 := Directory(slots[0 := 2]), 2 := NewBucket(0)];
      this.dir, this.buckets, this.contents := [2], map[2 := Group(0, [2])], multiset{};
      new;
      AllocatedThree(pages);
      assert SlotStored(pages, directoryPages, SlotsPerPage(pageSize), dir, 0);
      assert PageOk(T(), 2, 0) && KeysOk(T(), 2, 0) && GroupOk(T(), 2) && Points(T(), 0, 2);
      forall e: Entry
        ensures contents[e] == Held(pages, ChainFor(T(), e.key), e)
      {
        HeldZero(pages, [2], e);
      }
    }

    /**
     Opening the file another index has left: the fields come from the metadata page, so the
     maximum depth is the one the file was created with.
     */
    constructor Open(file: ExtendibleHash)
      requires file.Valid()
      ensures Valid() && T() == file.T() && directoryPages == file.directoryPages && pageCount == file.pageCount
    {
      var meta := file.pages[0];
      pageSize, hash, pages, pageCount := file.pageSize, file.hash, file.pages, file.pageCount;
      globalDepth, maxDepth, directoryPages := meta.globalDepth, meta.maxDepth, meta.directoryPages;
      dir, buckets, contents := file.dir, file.buckets, file.contents;
    }

    method DirectorySlot(slot: nat, ghost d: seq<nat>) returns (id: nat)
      requires Stored(pages, directoryPages, SlotsPerPage(pageSize), d) && slot < |d|
      ensures id == d[slot]
    {
      assert SlotStored(pages, directoryPages, SlotsPerPage(pageSize), d, slot);
      hide PageNo, PlaceNo, SlotsPerPage;
      var p := directoryPages[PageNo(slot, SlotsPerPage(pageSize))];
      id := pages[p].slots[PlaceNo(slot, SlotsPerPage(pageSize))];
    }

    method WriteDirectorySlot(slot: nat, id: nat, ghost d: seq<nat>) returns (ghost d': seq<nat>)
      requires Stored(pages, directoryPages, SlotsPerPage(pageSize), d) && slot <= |d|
      requires slot < |directoryPages| * SlotsPerPage(pageSize)
      modifies this`pages
      ensures d' == if slot < |d| then d[slot := id] else d + [id]
      ensures Stored(pages, directoryPages, SlotsPerPage(pageSize), d')
      ensures pages.Keys == old(pages).Keys
      ensures forall p :: p in pages && !old(pages)[p].Directory? ==> pages[p] == old(pages)[p]
      ensures forall p :: p in pages && old(pages)[p].Directory? ==> pages[p].Directory?
    {
      hide PageNo, PlaceNo, SlotsPerPage, SlotStored;
      d' := if slot < |d| then d[slot := id] else d + [id];
      PageOfSlot(slot, SlotsPerPage(pageSize), |directoryPages|);
      var p := directoryPages[PageNo(slot, SlotsPerPage(pageSize))];
      assert DirectoryPage(pages, SlotsPerPage(pageSize), p);
      ghost var before := pages;
      pages := pages[p := Directory(pages[p].slots[PlaceNo(slot, SlotsPerPage(pageSize)) := id])];
      WriteKeepsStored(before, directoryPages, SlotsPerPage(pageSize), d, slot, id, pages, d');
    }

    /** The pages of a bucket, following its overflow links. */
    method Chain(bucketId: nat) returns (chain: seq<nat>)
      requires BucketsOk(T()) && bucketId in buckets
      ensures chain == buckets[bucketId].chain
    {
      hide KeysOk, Apart;
      ghost var c := buckets[bucketId].chain;
      assert GroupOk(T(), bucketId) && PageOk(T(), bucketId, 0);
      forall k | 0 <= k < |c|
        ensures c[k] != NO_OVERFLOW
      {
        assert PageOk(T(), bucketId, k);
      }
      chain := [];
      var pageId := bucketId;
      while pageId != NO_OVERFLOW
        invariant |chain| <= |c| && chain == c[..|chain|]
        invariant pageId == if |chain| < |c| then c[|chain|] else NO_OVERFLOW
        decreases |c| - |chain|
      {
        assert PageOk(T(), bucketId, |chain|);
        chain := chain + [pageId];
        pageId := pages[pageId].overflow;
      }
    }

    method BucketFor(key: Key) returns (id: nat)
      requires Valid()
      ensures id == dir[hash(key) % |dir|] && id in buckets && GroupOk(T(), id)
      ensures ChainFor(T(), key) == buckets[id].chain
      ensures id in pages && pages[id].Bucket? && Measured(pageSize, pages[id])
      ensures hash(key) % Pow2(pages[id].depth) == buckets[id].suffix
      ensures |dir| == Pow2(globalDepth) && pages[id].depth <= globalDepth <= maxDepth
      ensures |buckets[id].chain| > 0 && buckets[id].chain[0] == id
    {
      id := DirectorySlot(hash(key) % Pow2(globalDepth), dir);
      ghost var b := Lookup(T(), key);
      assert PageOk(T(), b, 0);
    }

    /** The record ids stored under key, as often as each is stored. */
    method Search(key: Key) returns (rids: seq<RID>)
      requires Valid()
      ensures forall r :: multiset(rids)[r] == contents[Entry(key, r)]
    {
      hide Stored, Held, Measured, Pow2;
      var b := BucketFor(key);
      var chain := Chain(b);
      PagesOfGroup(T(), b);
      rids := [];
      forall r: RID
        ensures Held(pages, [], Entry(key, r)) == 0
      {
        HeldZero(pages, [], Entry(key, r));
      }
      assert chain[..0] == [];
      for i := 0 to |chain|
        invariant forall r :: multiset(rids)[r] == Held(pages, chain[..i], Entry(key, r))
      {
        forall r: RID
          ensures multiset(rids + RidsOf(pages[chain[i]].entries, key))[r] == Held(pages, chain[..i + 1], Entry(key, r))
        {
          assert chain[..i + 1] == chain[..i] + [chain[i]];
          HeldAppend(pages, chain[..i], chain[i], Entry(key, r));
          RidsCount(pages[chain[i]].entries, key, r);
        }
        rids := rids + RidsOf(pages[chain[i]].entries, key);
      }
      assert chain[..|chain|] == chain;
      forall r: RID
        ensures multiset(rids)[r] == contents[Entry(key, r)]
      {
        assert T().contents[Entry(key, r)] == Held(T().pages, ChainFor(T(), key), Entry(key, r));
      }
    }

    /** Replace the entries of page k of bucket b and account for it in the contents. */
    method Rewrite(b: nat, k: nat, p: Page, ghost total: multiset<Entry>, ghost key: Key)
      requires Valid() && b in buckets && k < |buckets[b].chain|
      requires buckets[b].chain[k] in pages && pages[buckets[b].chain[k]].Bucket?
      requires p.Bucket? && Measured(pageSize, p)
      requires p.depth == pages[buckets[b].chain[k]].depth && p.overflow == pages[buckets[b].chain[k]].overflow
      requires hash(key) % Pow2(Depth(pages, b)) == buckets[b].suffix
      requires forall e :: e in p.entries ==> e.key == key || e in pages[buckets[b].chain[k]].entries
      requires forall e {:trigger total[e]} :: total[e] + Times(pages, buckets[b].chain[k], e) == contents[e] + multiset(p.entries)[e]
      modifies this`pages, this`contents
      ensures Valid() && contents == total && pages == old(pages)[buckets[b].chain[k] := p]
    {
      hide Pow2, Measured, Held, Apart, Times, Stored;
      ghost var before := T();
      assert GroupOk(T(), b) && PageOk(T(), b, k) && KeysOk(T(), b, k);
      var chain := Chain(b);
      pages := pages[chain[k] := p];
      contents := total;
      hide GroupOk, PageOk, KeysOk, Points;
      RewriteKeepsInv(before, b, k, p, total, T());
      StoredFrame(before.pages, pages, directoryPages, SlotsPerPage(pageSize), dir);
    }

    /** One page of the chain: every matching entry on it goes. */
    method RemoveFromPage(b: nat, k: nat, key: Key, rid: Option<RID>) returns (removed: nat)
      requires Valid() && b in buckets && k < |buckets[b].chain| && b == dir[hash(key) % |dir|]
      modifies this`pages, this`contents
      ensures Valid()
      ensures forall e :: !Matches(e, key, rid) ==> contents[e] == old(contents)[e]
      ensures forall e :: Matches(e, key, rid) ==> Times(pages, buckets[b].chain[k], e) == 0
      ensures forall e, j :: 0 <= j < |buckets[b].chain| && j != k ==>
                Times(pages, buckets[b].chain[j], e) == old(Times(pages, buckets[b].chain[j], e))
      ensures removed + |contents| == |old(contents)|
    {
      hide Stored, Held, Pow2, Apart, Points, Filter, Unmatched, Times, Matches;
      ghost var home := Lookup(T(), key);
      var chain := Chain(b);
      PagesOfGroup(T(), b);
      assert PageOk(T(), b, k);
      var p := pages[chain[k]];
      hide PageOk, KeysOk, GroupOk;
      var q: Page;
      q, removed := RemoveEntries(pageSize, p, key, rid);
      ghost var total := Removal(T(), b, k, key, rid, q, removed);
      RemovalClears(T(), b, k, key, rid, q, pages[chain[k] := q]);
      hide Measured, Inv;
      Rewrite(b, k, q, total, key);
    }

    /** Every matching pair goes, as often as it is stored; nothing else does. */
    method Remove(key: Key, rid: Option<RID>) returns (removed: nat)
      requires Valid()
      modifies this`pages, this`contents
      ensures Valid()
      ensures forall e :: contents[e] == if e.key == key && (rid == None || rid == Some(e.rid)) then 0 else old(contents)[e]
      ensures removed == |old(contents)| - |contents|
    {
      hide Stored, Held, Measured, Pow2, DirectoryOk, BucketsOk, Times, ChainFor;
      var b := BucketFor(key);
      var chain := Chain(b);
      removed := 0;
      for i := 0 to |chain|
        invariant Valid()
        invariant forall e :: !Matches(e, key, rid) ==> contents[e] == old(contents)[e]
        invariant forall e, k :: Matches(e, key, rid) && 0 <= k < i ==> Times(pages, chain[k], e) == 0
        invariant removed + |contents| == |old(contents)|
      {
        var n := RemoveFromPage(b, i, key, rid);
        removed := removed + n;
      }
      forall e: Entry
        ensures Matches(e, key, rid) <==> e.key == key && (rid == None || rid == Some(e.rid))
      {
        MatchesIs(e, key, rid);
      }
      forall e | Matches(e, key, rid)
        ensures contents[e] == 0
      {
        ghost var home := Lookup(T(), key);
        assert T().contents[e] == Held(T().pages, ChainFor(T(), e.key), e);
        HeldZero(pages, chain, e);
      }
    }

    /** Add one entry to page k of bucket b, which has room for it. */
    method Append(b: nat, k: nat, key: Key, rid: RID)
      requires Valid() && b in buckets && k < |buckets[b].chain|
      requires b == dir[hash(key) % |dir|]
      requires buckets[b].chain[k] in pages && pages[buckets[b].chain[k]].Bucket?
      requires Measured(pageSize, pages[buckets[b].chain[k]]) && HasRoom(pageSize, pages[buckets[b].chain[k]], key)
      modifies this`pages, this`contents
      ensures Valid() && contents == old(contents) + multiset{Entry(key, rid)}
    {
      hide Stored, Held, Pow2, KeysOk, Apart, Points;
      ghost var home := Lookup(T(), key);
      var chain := Chain(b);
      var p := AddEntry(pageSize, pages[chain[k]], Entry(key, rid));
      hide Measured, GroupOk;
      Rewrite(b, k, p, contents + multiset{Entry(key, rid)}, key);
    }

    /**
     Insert one pair. The loop splits the bucket the key belongs to until there is room or
     the maximum depth is reached; it ends because that bucket's local depth grows. An
     insert that is refused changes no entry.
     */
    method Insert(key: Key, rid: RID) returns (outcome: Outcome)
      requires Valid()
      modifies this
      ensures Valid() && maxDepth == old(maxDepth) && globalDepth >= old(globalDepth)
      ensures outcome == KeyTooLarge <==> 9 + 2 + |key| + 6 > pageSize
      ensures outcome == DirectoryFull <==> 9 + 2 + |key| + 6 <= pageSize && exists d: nat :: FullAt(old(T()), key, d)
      ensures outcome == DirectoryFull <==>
              && |key| <= MaxKeySize(pageSize) && old(Reach(pageSize, globalDepth, maxDepth)) < maxDepth
              && old(NoRoomAt(T(), key, Reach(pageSize, globalDepth, maxDepth)))
      ensures outcome == DirectoryFull ==> globalDepth == old(Reach(pageSize, globalDepth, maxDepth))
      ensures Fits(maxDepth) ==> outcome != DirectoryFull
      ensures contents == if outcome == Inserted then old(contents) + multiset{Entry(key, rid)} else old(contents)
    {
      hide Stored, Inv, Pow2, GroupOk, DirectoryFits, MaxDirectoryPages, SlotsPerPage, Measured, ChainFor;
      hide Reach, NoRoomAt, HomeEntries, Filter, SharesSuffix, BitIs, NextBit, HasRoom;
      DirectoryLength(T());
      if |key| > MaxKeySize(pageSize) {
        return KeyTooLarge;
      }
      ghost var start := T();
      ghost var reach := Reach(pageSize, globalDepth, maxDepth);
      ghost var home := HomeBucket(start, key);
      ValidInv();
      FullWhen(start, key);
      while true
        invariant Valid() && contents == old(contents) && maxDepth == old(maxDepth) && globalDepth >= old(globalDepth)
        invariant |dir| > 0 && globalDepth <= maxDepth && Reach(pageSize, globalDepth, maxDepth) == reach
        invariant HomeEntries(T(), key) ==
                  Filter(HomeEntries(start, key), SharesSuffix(hash, key, Depth(pages, dir[hash(key) % |dir|])))
        decreases maxDepth - Depth(pages, dir[hash(key) % |dir|])
      {
        var b := BucketFor(key);
        var localDepth := pages[b].depth;
        HomeSharesSuffix(T(), key, b);
        RoomIs(start, key, pages[b], localDepth);
        if HasRoom(pageSize, pages[b], key) {
          RoomStays(start, key, localDepth, reach);
          Append(b, 0, key, rid);
          return Inserted;
        }
        if localDepth >= maxDepth {
          InsertIntoOverflow(b, key, rid);
          return Inserted;
        }
        SharingHalf(HomeEntries(start, key), hash, key, localDepth);
        var split := SplitBucket(hash(key) % Pow2(globalDepth), b, localDepth, key);
        if !split {
          ReachEnds(pageSize, globalDepth, maxDepth);
          return DirectoryFull;
        }
      }
    }

    /** A full bucket at the maximum depth: use its last page, or chain a new one behind it. */
    method InsertIntoOverflow(b: nat, key: Key, rid: RID)
      requires Valid() && b in buckets && b == dir[hash(key) % |dir|]
      requires Depth(pages, b) == maxDepth && |key| <= MaxKeySize(pageSize)
      modifies this
      ensures Valid() && contents == old(contents) + multiset{Entry(key, rid)}
      ensures maxDepth == old(maxDepth) && globalDepth == old(globalDepth)
    {
      hide Stored, Held, Pow2, KeysOk, Apart, Points;
      var chain := Chain(b);
      assert GroupOk(T(), b) && PageOk(T(), b, |chain| - 1);
      var last := chain[|chain| - 1];
      if HasRoom(pageSize, pages[last], key) {
        Append(b, |chain| - 1, key, rid);
        return;
      }
      AddOverflowPage(b, last, key, rid);
    }

    method AddOverflowPage(b: nat, last: nat, key: Key, rid: RID)
      requires Valid() && b in buckets && b == dir[hash(key) % |dir|]
      requires |buckets[b].chain| > 0 && last == buckets[b].chain[|buckets[b].chain| - 1]
      requires last in pages && pages[last].Bucket?
      requires Depth(pages, b) == maxDepth && |key| <= MaxKeySize(pageSize)
      modifies this
      ensures Valid() && contents == old(contents) + multiset{Entry(key, rid)}
      ensures maxDepth == old(maxDepth) && globalDepth == old(globalDepth)
    {
      hide Stored, Inv, Depth, Pow2, Bytes;
      ghost var before := T();
      BytesOfNone();
      var e := Entry(key, rid);
      var id := pageCount;
      pageCount := pageCount + 1;
      var p := AddEntry(pageSize, NewBucket(maxDepth), e);
      hide Measured, Bytes;
      pages := pages[id := p];
      pages := pages[last := pages[last].(overflow := id)];
      buckets := buckets[b := Group(buckets[b].suffix, buckets[b].chain + [id])];
      contents := contents + multiset{e};
      assert before.pages[id := p][last := before.pages[last].(overflow := id)] == pages;
      ChainedKeepsInv(before, b, id, p, e, T());
      StoredFrame(before.pages, pages, directoryPages, SlotsPerPage(pageSize), dir);
    }

    method AddDirectoryPages(neededPages: nat)
      requires PagesOk() && Stored(pages, directoryPages, SlotsPerPage(pageSize), dir)
      requires |directoryPages| <= MaxDirectoryPages(pageSize) && neededPages <= MaxDirectoryPages(pageSize)
      modifies this`pages, this`pageCount, this`directoryPages
      ensures PagesOk() && Stored(pages, directoryPages, SlotsPerPage(pageSize), dir)
      ensures BucketPagesSame(old(pages), pages)
      ensures neededPages <= |directoryPages| <= MaxDirectoryPages(pageSize)
    {
      hide Stored, MaxDirectoryPages;
      var spp := SlotsPerPage(pageSize);
      while |directoryPages| < neededPages
        invariant PagesOk() && Stored(pages, directoryPages, spp, dir)
        invariant BucketPagesSame(old(pages), pages)
        invariant |directoryPages| <= MaxDirectoryPages(pageSize)
      {
        var id := pageCount;
        pageCount := pageCount + 1;
        GrowKeepsStored(pages, directoryPages, spp, dir, id, seq(spp, i => 0));
        pages := pages[id := Directory(seq(spp, i => 0))];
        directoryPages := directoryPages + [id];
      }
    }

    method CopySlots(oldSize: nat) returns (ghost d: seq<nat>)
      requires PagesOk() && Stored(pages, directoryPages, SlotsPerPage(pageSize), dir)
      requires oldSize == |dir| && 2 * oldSize <= |directoryPages| * SlotsPerPage(pageSize)
      modifies this`pages
      ensures d == dir + dir && Stored(pages, directoryPages, SlotsPerPage(pageSize), d)
      ensures PagesOk() && BucketPagesSame(old(pages), pages)
    {
      hide Stored;
      var spp := SlotsPerPage(pageSize);
      d := dir;
      for slot := 0 to oldSize
        invariant PagesOk() && d == dir + dir[..slot]
        invariant Stored(pages, directoryPages, spp, d)
        invariant BucketPagesSame(old(pages), pages)
      {
        var target := DirectorySlot(slot, d);
        d := WriteDirectorySlot(slot + oldSize, target, d);
      }
    }

    /** Twice the directory: every new slot gets the bucket of its twin. */
    method DoubleDirectory() returns (done: bool)
      requires Valid() && globalDepth < maxDepth
      modifies this
      ensures Valid()
      ensures maxDepth == old(maxDepth) && buckets == old(buckets) && contents == old(contents)
      ensures BucketPagesSame(old(pages), pages)
      ensures !done ==> T() == old(T()) && !Fits(globalDepth + 1)
      ensures done ==> globalDepth == old(globalDepth) + 1 && dir == old(dir) + old(dir) && Fits(globalDepth)
    {
      hide Inv, Stored, CeilDiv, MaxDirectoryPages, SlotsPerPage, Allocated;
      ghost var before := T();
      DirectoryLength(T());
      var oldSize := Pow2(globalDepth);
      var spp := SlotsPerPage(pageSize);
      CeilDivCovers(oldSize * 2, spp);
      var neededPages := CeilDiv(oldSize * 2, spp);
      if neededPages > MaxDirectoryPages(pageSize) {
        return false;
      }
      AddDirectoryPages(neededPages);
      TimesMonotone(spp, neededPages, |directoryPages|);
      ghost var d := CopySlots(oldSize);
      globalDepth := globalDepth + 1;
      ghost var mid := pages;
      AllocatedRewritten(pages, pageCount, 0, Metadata(globalDepth, maxDepth, directoryPages));
      pages := pages[0 := Metadata(globalDepth, maxDepth, directoryPages)];
      dir := d;
      StoredFrame(mid, pages, directoryPages, spp, d);
      DoubleKeepsInv(before, before.(dir := dir, depth := globalDepth));
      OtherPagesKeepInv(before.(dir := dir, depth := globalDepth), T());
      return true;
    }

    /**
     Split the bucket of `slot` by bit localDepth of the hash, doubling the directory first
     when the bucket has no second slot to give away. Nothing happens when that fails.
     */
    method SplitBucket(slot: nat, b: nat, localDepth: nat, ghost key: Key) returns (done: bool)
      requires Valid() && slot < |dir| && slot == hash(key) % |dir| && b == dir[slot]
      requires b in buckets && b in pages && pages[b].Bucket? && pages[b].depth == localDepth < maxDepth
      modifies this
      ensures Valid() && contents == old(contents) && maxDepth == old(maxDepth) && globalDepth >= old(globalDepth)
      ensures !done ==> T() == old(T()) && globalDepth == localDepth && !Fits(globalDepth + 1)
      ensures done ==> |dir| > 0 && Depth(pages, dir[hash(key) % |dir|]) == localDepth + 1
      ensures done ==> HomeEntries(T(), key) == Filter(old(pages)[b].entries, BitIs(hash, localDepth, NextBit(hash, key, localDepth)))
      ensures Reach(pageSize, globalDepth, maxDepth) == old(Reach(pageSize, globalDepth, maxDepth))
    {
      hide Valid, Inv, DirectoryFits, Reach, HomeEntries, Filter, BitIs, NextBit, BucketPagesSame, SlotsPerPage;
      ValidInv();
      LabelWithin(T(), b);
      TwinSlot(dir, hash(key));
      ghost var before := pages;
      if localDepth == globalDepth {
        done := DoubleDirectory();
        if !done {
          return;
        }
        SameBucketPage(before, pages, b);
        ReachStep(pageSize, globalDepth - 1, maxDepth);
      }
      done := true;
      DivideBucket(slot, b, localDepth, key);
    }

    /** The part of a split after the directory is large enough. */
    method DivideBucket(slot: nat, b: nat, localDepth: nat, ghost key: Key)
      requires Valid() && slot < |dir| && b == dir[slot] && b == dir[hash(key) % |dir|]
      requires b in buckets && b in pages && pages[b].Bucket? && pages[b].depth == localDepth < globalDepth
      modifies this
      ensures Valid() && contents == old(contents) && maxDepth == old(maxDepth) && globalDepth == old(globalDepth)
      ensures |dir| > 0 && Depth(pages, dir[hash(key) % |dir|]) == localDepth + 1
      ensures HomeEntries(T(), key) == Filter(old(pages)[b].entries, BitIs(hash, localDepth, NextBit(hash, key, localDepth)))
    {
      hide Stored, Inv, Pow2, Filter, BitIs, NextBit, Measured, HomeEntries;
      ghost var before := T();
      MainPage(before, b);
      DirectoryLength(before);
      var newId := pageCount;
      pageCount := pageCount + 1;
      ghost var p0, p1 := DivideEntries(b, newId, localDepth);
      StoredFrame(before.pages, pages, directoryPages, SlotsPerPage(pageSize), dir);
      var suffix := slot % Pow2(localDepth);
      buckets := buckets[b := Group(suffix, [b])][newId := Group(suffix + Pow2(localDepth), [newId])];
      RedirectSlots(newId, suffix, localDepth);
      hide EndsIn;
      SplitDone(before, b, slot, newId, p0, p1, T(), key);
    }

    /** Rewrite the page of b with the entries that stay, a new page with those that move. */
    method DivideEntries(b: nat, newId: nat, localDepth: nat) returns (ghost p0: Page, ghost p1: Page)
      requires b in pages && pages[b].Bucket? && Measured(pageSize, pages[b]) && newId !in pages
      modifies this`pages
      ensures pages == old(pages)[b := p0][newId := p1]
      ensures p0.Bucket? && p1.Bucket? && Measured(pageSize, p0) && Measured(pageSize, p1)
      ensures p0.depth == localDepth + 1 && p1.depth == localDepth + 1
      ensures p0.overflow == old(pages)[b].overflow && p1.overflow == NO_OVERFLOW
      ensures p0.entries == Filter(old(pages)[b].entries, BitIs(hash, localDepth, 0))
      ensures p1.entries == Filter(old(pages)[b].entries, BitIs(hash, localDepth, 1))
    {
      hide Pow2;
      var stay, move := SortEntries(pages[b].entries, localDepth);
      var kept := WriteEntries(pageSize, pages[b], stay);
      kept := kept.(depth := localDepth + 1);
      var moved := WriteEntries(pageSize, NewBucket(localDepth + 1), move);
      pages := pages[b := kept][newId := moved];
      p0, p1 := kept, moved;
    }

    /** The entries whose next hash bit is 0, and those where it is 1, each in order. */
    method SortEntries(es: seq<Entry>, localDepth: nat) returns (stay: seq<Entry>, move: seq<Entry>)
      ensures stay == Filter(es, BitIs(hash, localDepth, 0))
      ensures move == Filter(es, BitIs(hash, localDepth, 1))
    {
      assert Filter([], BitIs(hash, localDepth, 0)) == [] && Filter([], BitIs(hash, localDepth, 1)) == [] && es[..0] == [];
      hide Pow2, Filter, BitIs;
      stay, move := [], [];
      for i := 0 to |es|
        invariant stay == Filter(es[..i], BitIs(hash, localDepth, 0))
        invariant move == Filter(es[..i], BitIs(hash, localDepth, 1))
      {
        assert es[..i + 1] == es[..i] + [es[i]];
        FilterAppend(es[..i], es[i], BitIs(hash, localDepth, 0));
        FilterAppend(es[..i], es[i], BitIs(hash, localDepth, 1));
        BitIsDefinition(es[i], hash, localDepth, 0);
        BitIsDefinition(es[i], hash, localDepth, 1);
        if (hash(es[i].key) / Pow2(localDepth)) % 2 == 1 {
          move := move + [es[i]];
        } else {
          stay := stay + [es[i]];
        }
      }
      assert es[..|es|] == es;
    }

    /** Every second slot that ends in suffix, those with a 1 in front of it, now points to newId. */
    method RedirectSlots(newId: nat, suffix: nat, localDepth: nat)
      requires Stored(pages, directoryPages, SlotsPerPage(pageSize), dir)
      requires |dir| == Pow2(globalDepth) <= |directoryPages| * SlotsPerPage(pageSize)
      requires suffix < Pow2(localDepth)
      modifies this`pages, this`dir
      ensures Stored(pages, directoryPages, SlotsPerPage(pageSize), dir) && |dir| == |old(dir)|
      ensures forall i :: 0 <= i < |dir| ==>
                dir[i] == if EndsIn(i, Pow2(localDepth + 1), suffix + Pow2(localDepth)) then newId else old(dir)[i]
      ensures pages.Keys == old(pages).Keys
      ensures forall p :: p in pages && !old(pages)[p].Directory? ==> pages[p] == old(pages)[p]
      ensures forall p :: p in pages && old(pages)[p].Directory? ==> pages[p].Directory?
    {
      hide Stored;
      var first := suffix + Pow2(localDepth);
      var step := Pow2(localDepth + 1);
      ghost var d0 := dir;
      var i := first;
      RemainderUnique(first, step, 0, first);
      forall j: nat | j < first
        ensures !EndsIn(j, step, first)
      {
        RemainderUnique(j, step, 0, j);
      }
      assert EndsIn(i, step, first);
      hide EndsIn, Pow2;
      while i < Pow2(globalDepth)
        invariant Stored(pages, directoryPages, SlotsPerPage(pageSize), dir) && |dir| == |d0|
        invariant EndsIn(i, step, first)
        invariant forall j {:trigger dir[j]} :: 0 <= j < |dir| ==> dir[j] == if j < i && EndsIn(j, step, first) then newId else d0[j]
        invariant pages.Keys == old(pages).Keys
        invariant forall p :: p in pages && !old(pages)[p].Directory? ==> pages[p] == old(pages)[p]
        invariant forall p :: p in pages && old(pages)[p].Directory? ==> pages[p].Directory?
        decreases Pow2(globalDepth) - i
      {
        ghost var d := WriteDirectorySlot(i, newId, dir);
        dir := d;
        NextInHalf(i, step, first);
        i := i + step;
      }
    }
  }

  lemma NextInHalf(i: nat, step: nat, first: nat)
    requires EndsIn(i, step, first)
    ensures EndsIn(i + step, step, first)
    ensures forall j: nat :: i < j < i + step ==> !EndsIn(j, step, first)
  {
    RemainderUnique(i + step, step, i / step + 1, i % step);
    forall j: nat | i < j < i + step
      ensures !EndsIn(j, step, first)
    {
      NoneBetween(i, j, step);
    }
  }

  /** What the contents become when the matching entries of page k go. */
  lemma Removal(T: Table, b: nat, k: nat, key: Key, rid: Option<RID>, q: Page, n: nat) returns (total: multiset<Entry>)
    requires Inv(T) && b in T.buckets && k < |T.buckets[b].chain| && ChainFor(T, key) == T.buckets[b].chain
    requires T.buckets[b].chain[k] in T.pages && T.pages[T.buckets[b].chain[k]].Bucket? && q.Bucket?
    requires q.entries == Filter(T.pages[T.buckets[b].chain[k]].entries, Unmatched(key, rid))
    requires n == |T.pages[T.buckets[b].chain[k]].entries| - |q.entries|
    ensures forall e :: total[e] + Times(T.pages, T.buckets[b].chain[k], e) == T.contents[e] + multiset(q.entries)[e]
    ensures |total| + n == |T.contents|
    ensures forall e :: e in q.entries ==> e in T.pages[T.buckets[b].chain[k]].entries
    ensures forall e :: !Matches(e, key, rid) ==> total[e] == T.contents[e]
    ensures forall e :: total[e] <= T.contents[e]
  {
    hide Inv, Times, ChainFor, Filter, Matches;
    var id := T.buckets[b].chain[k];
    var es := T.pages[id].entries;
    forall e: Entry
      ensures multiset(q.entries)[e] == if Matches(e, key, rid) then 0 else multiset(es)[e]
      ensures Times(T.pages, id, e) == multiset(es)[e]
      ensures multiset(es)[e] - multiset(q.entries)[e] <= T.contents[e]
    {
      RemovalCounts(T, b, k, key, rid, q, e);
    }
    total := Withdraw(T.contents, es, q.entries);
  }

  /** Taking the entries that are in es but not kept out of the contents. */
  lemma Withdraw(contents: multiset<Entry>, es: seq<Entry>, kept: seq<Entry>) returns (total: multiset<Entry>)
    requires forall e :: multiset(kept)[e] <= multiset(es)[e] <= contents[e] + multiset(kept)[e]
    ensures forall e :: total[e] + multiset(es)[e] == contents[e] + multiset(kept)[e]
    ensures |total| + |es| - |kept| == |contents|
    ensures forall e :: e in kept ==> e in es
  {
    var gone := multiset(es) - multiset(kept);
    total := contents - gone;
    Cardinals(contents, gone);
    Cardinals(multiset(es), gone);
    assert multiset(es) - gone == multiset(kept);
    forall e | e in kept
      ensures e in es
    {
      assert e in multiset(kept);
    }
  }

  lemma RemovalCounts(T: Table, b: nat, k: nat, key: Key, rid: Option<RID>, q: Page, e: Entry)
    requires Inv(T) && b in T.buckets && k < |T.buckets[b].chain| && ChainFor(T, key) == T.buckets[b].chain
    requires T.buckets[b].chain[k] in T.pages && T.pages[T.buckets[b].chain[k]].Bucket?
    requires q.Bucket? && q.entries == Filter(T.pages[T.buckets[b].chain[k]].entries, Unmatched(key, rid))
    ensures multiset(q.entries)[e] == if Matches(e, key, rid) then 0 else Times(T.pages, T.buckets[b].chain[k], e)
    ensures Times(T.pages, T.buckets[b].chain[k], e) == multiset(T.pages[T.buckets[b].chain[k]].entries)[e]
    ensures Matches(e, key, rid) ==> Times(T.pages, T.buckets[b].chain[k], e) <= T.contents[e]
  {
    DirectoryLength(T);
    hide DirectoryOk, BucketsOk, Held, Filter;
    FilterCount(T.pages[T.buckets[b].chain[k]].entries, Unmatched(key, rid), e);
    HeldAtLeast(T.pages, T.buckets[b].chain, k, e);
    assert T.contents[e] == Held(T.pages, ChainFor(T, e.key), e);
  }

  lemma Cardinals(a: multiset<Entry>, b: multiset<Entry>)
    requires forall e :: b[e] <= a[e]
    ensures |a - b| + |b| == |a|
  {
    assert (a - b) + b == a;
  }

  lemma {:induction false} HeldAtLeast(pages: map<nat, Page>, c: seq<nat>, k: nat, e: Entry)
    requires k < |c|
    ensures Held(pages, c, e) >= Times(pages, c[k], e)
  {
    if k < |c| - 1 {
      HeldAtLeast(pages, c[..|c| - 1], k, e);
    }
  }

  lemma RemovalClears(T: Table, b: nat, k: nat, key: Key, rid: Option<RID>, q: Page, pages': map<nat, Page>)
    requires BucketsOk(T) && b in T.buckets && k < |T.buckets[b].chain|
    requires T.buckets[b].chain[k] in T.pages && T.pages[T.buckets[b].chain[k]].Bucket? && q.Bucket?
    requires q.entries == Filter(T.pages[T.buckets[b].chain[k]].entries, Unmatched(key, rid))
    requires q.depth == T.pages[T.buckets[b].chain[k]].depth
    requires pages' == T.pages[T.buckets[b].chain[k] := q]
    ensures forall e :: Matches(e, key, rid) ==> Times(pages', T.buckets[b].chain[k], e) == 0
    ensures forall e, j :: 0 <= j < |T.buckets[b].chain| && j != k ==>
              Times(pages', T.buckets[b].chain[j], e) == Times(T.pages, T.buckets[b].chain[j], e)
    ensures Depth(pages', b) == Depth(T.pages, b)
  {
    hide KeysOk, PageOk, Apart;
    assert GroupOk(T, b);
    forall e | Matches(e, key, rid)
      ensures multiset(q.entries)[e] == 0
    {
      FilterCount(T.pages[T.buckets[b].chain[k]].entries, Unmatched(key, rid), e);
    }
  }
}
