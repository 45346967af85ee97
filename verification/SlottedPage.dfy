/**
 The slotted page (engine/storage/_slotted_page.py): what it means as a list of slots, and
 the operations on its byte buffer.
 */
module SlottedPages {
  import opened Common

  type Byte = b: int | 0 <= b < 256 witness 0

  const HEADER_SIZE: nat := 4
  const SLOT_SIZE: nat := 4

  /** A page as its users see it: each slot holds a record or is a tombstone for ever. */
  datatype Page = Page(size: nat, slots: seq<Option<seq<Byte>>>, freeOffset: nat)

  function MaxRecordSize(size: nat): int {
    size - HEADER_SIZE - SLOT_SIZE
  }

  function Length(s: Option<seq<Byte>>): nat {
    if s.Some? then |s.value| else 0
  }

  function LiveBytes(slots: seq<Option<seq<Byte>>>): nat {
    if slots == [] then 0 else LiveBytes(slots[..|slots| - 1]) + Length(slots[|slots| - 1])
  }

  /** The slot directory ends before the free offset, and all live records lie behind it. */
  predicate Ok(p: Page) {
    HEADER_SIZE + SLOT_SIZE * |p.slots| <= p.freeOffset && p.freeOffset + LiveBytes(p.slots) <= p.size
  }

  function NewPage(size: nat): Page {
    Page(size, [], size)
  }

  function FreeSpace(p: Page): int {
    p.freeOffset - (HEADER_SIZE + SLOT_SIZE * |p.slots|)
  }

  /** Bytes of removed records that compaction would win back. */
  function Reclaimable(p: Page): int {
    (p.size - p.freeOffset) - LiveBytes(p.slots)
  }

  /** Bytes between the free offset and the end of the page. */
  function Occupied(p: Page): int {
    p.size - p.freeOffset
  }

  function Capacity(p: Page): int {
    FreeSpace(p) + Reclaimable(p)
  }

  predicate HasRoom(p: Page, data: seq<Byte>) {
    |data| + SLOT_SIZE <= FreeSpace(p)
  }

  /** What a page can still take, its slot included: all but header, slots and live records. */
  lemma CapacityIs(p: Page)
    ensures Capacity(p) == p.size - 4 - 4 * |p.slots| - LiveBytes(p.slots)
    ensures Capacity(NewPage(p.size)) == p.size - 4 && MaxRecordSize(p.size) == p.size - 8
  {
  }

  /** A record always goes into a brand-new slot. */
  function Insert(p: Page, data: seq<Byte>): Page
    requires Ok(p) && HasRoom(p, data)
  {
    Page(p.size, p.slots + [Some(data)], p.freeOffset - |data|)
  }

  function Read(p: Page, slot: int): Option<seq<Byte>> {
    if 0 <= slot < |p.slots| then p.slots[slot] else None
  }

  function Delete(p: Page, slot: int): Page {
    if Read(p, slot).Some? then p.(slots := p.slots[slot := None]) else p
  }

  function Compact(p: Page): Page
    requires Ok(p)
  {
    p.(freeOffset := p.size - LiveBytes(p.slots))
  }

  lemma LiveBytesAppend(slots: seq<Option<seq<Byte>>>, s: Option<seq<Byte>>)
    ensures LiveBytes(slots + [s]) == LiveBytes(slots) + Length(s)
  {
    assert (slots + [s])[..|slots|] == slots;
  }

  lemma {:induction false} LiveBytesUpdate(slots: seq<Option<seq<Byte>>>, i: nat, s: Option<seq<Byte>>)
    requires i < |slots|
    ensures LiveBytes(slots[i := s]) + Length(slots[i]) == LiveBytes(slots) + Length(s)
  {
    var front := slots[..|slots| - 1];
    if i == |slots| - 1 {
      assert slots[i := s][..|slots| - 1] == front;
    } else {
      assert slots[i := s][..|slots| - 1] == front[i := s];
      LiveBytesUpdate(front, i, s);
    }
  }

  /** An insert adds one slot at the end and leaves all other slots alone. */
  lemma InsertIs(p: Page, data: seq<Byte>)
    requires Ok(p) && HasRoom(p, data)
    ensures var q := Insert(p, data);
            && Ok(q) && q.size == p.size && |q.slots| == |p.slots| + 1
            && Read(p, |p.slots|) == None && Read(q, |p.slots|) == Some(data)
            && (forall s {:trigger Read(q, s)} :: s != |p.slots| ==> Read(q, s) == Read(p, s))
            && Capacity(q) == Capacity(p) - |data| - SLOT_SIZE
            && Reclaimable(q) == Reclaimable(p) && Occupied(q) == Occupied(p) + |data|
  {
    LiveBytesAppend(p.slots, Some(data));
  }

  /** A delete turns its slot into a tombstone; the bytes become reclaimable. */
  lemma DeleteIs(p: Page, slot: int)
    requires Ok(p)
    ensures var q := Delete(p, slot);
            && Ok(q) && q.size == p.size && |q.slots| == |p.slots|
            && Read(q, slot) == None
            && (forall s {:trigger Read(q, s)} :: s != slot ==> Read(q, s) == Read(p, s))
            && Capacity(q) == Capacity(p) + Length(Read(p, slot))
            && Reclaimable(q) == Reclaimable(p) + Length(Read(p, slot)) && Occupied(q) == Occupied(p)
  {
    if Read(p, slot).Some? {
      LiveBytesUpdate(p.slots, slot, None);
    }
  }

  /** Compaction keeps every slot and wins back exactly the reclaimable bytes. */
  lemma CompactIs(p: Page)
    requires Ok(p)
    ensures var q := Compact(p);
            && Ok(q) && q.size == p.size && q.slots == p.slots
            && FreeSpace(q) == FreeSpace(p) + Reclaimable(p) && Reclaimable(q) == 0
            && Capacity(q) == Capacity(p)
            && Occupied(q) == Occupied(p) - Reclaimable(p)
  {
  }

  /** After compaction the record fits if free and reclaimable space together hold it. */
  lemma RoomAfterCompact(p: Page, data: seq<Byte>)
    requires Ok(p)
    ensures HasRoom(Compact(p), data) <==> |data| + SLOT_SIZE <= Capacity(p)
  {
  }

  // ----- the byte buffer -----

  /** A slot entry of the directory. */
  datatype Entry = Entry(offset: nat, length: nat)

  const TOMBSTONE_OFFSET: nat := 0

  function SlotOf(b: seq<Byte>, e: Entry): Option<seq<Byte>> {
    if e.offset == TOMBSTONE_OFFSET || e.offset + e.length > |b| then None else Some(b[e.offset..e.offset + e.length])
  }

  function SlotsOf(b: seq<Byte>, es: seq<Entry>): seq<Option<seq<Byte>>> {
    seq(|es|, i requires 0 <= i < |es| => SlotOf(b, es[i]))
  }

  /** A live record lies between a bound and the end of the page. */
  predicate Behind(e: Entry, bound: nat, size: nat) {
    e.offset != TOMBSTONE_OFFSET ==> bound <= e.offset && e.offset + e.length <= size
  }

  /** Records of different live slots lie apart, the later slot further to the front. */
  predicate Apart(es: seq<Entry>, i: nat, j: nat)
    requires i < j < |es|
  {
    es[i].offset != TOMBSTONE_OFFSET && es[j].offset != TOMBSTONE_OFFSET ==> es[j].offset + es[j].length <= es[i].offset
  }

  /** data written over the bytes from `at` on. */
  function Splice(b: seq<Byte>, at: nat, data: seq<Byte>): (r: seq<Byte>)
    requires at + |data| <= |b|
    ensures |r| == |b|
    ensures r[at..at + |data|] == data
    ensures forall i :: 0 <= i < |b| && (i < at || at + |data| <= i) ==> r[i] == b[i]
  {
    b[..at] + data + b[at + |data|..]
  }

  /** A write in front of a record does not change it. */
  lemma SpliceInFront(b: seq<Byte>, at: nat, data: seq<Byte>, e: Entry)
    requires at + |data| <= |b| && Behind(e, at + |data|, |b|)
    ensures SlotOf(Splice(b, at, data), e) == SlotOf(b, e)
  {
    if e.offset != TOMBSTONE_OFFSET {
      assert Splice(b, at, data)[e.offset..e.offset + e.length] == b[e.offset..e.offset + e.length];
    }
  }

  class SlottedPage {
    const bytes: array<Byte>
    var entries: seq<Entry>
    var freeOffset: nat

    ghost predicate Valid()
      reads this, bytes
    {
      && (forall i :: 0 <= i < |entries| ==> Behind(entries[i], freeOffset, bytes.Length))
      && (forall i, j {:trigger Apart(entries, i, j)} :: 0 <= i < j < |entries| ==> Apart(entries, i, j))
      && Ok(View())
    }

    /** The page as its users see it. */
    ghost function View(): Page
      reads this, bytes
    {
      Page(bytes.Length, SlotsOf(bytes[..], entries), freeOffset)
    }

    constructor (size: nat)
      requires size >= HEADER_SIZE
      ensures Valid() && View() == NewPage(size) && fresh(bytes)
    {
      bytes := new Byte[size](_ => 0);
      entries, freeOffset := [], size;
    }

    method Write(at: nat, data: seq<Byte>)
      requires at + |data| <= bytes.Length
      modifies bytes
      ensures bytes[..] == Splice(old(bytes[..]), at, data)
    {
      for i := 0 to |data|
        invariant bytes[..] == Splice(old(bytes[..]), at, data[..i])
      {
        bytes[at + i] := data[i];
        assert data[..i + 1] == data[..i] + [data[i]];
      }
      assert data[..|data|] == data;
    }

    /** Place the record in a new slot, or report that there is no room. */
    method InsertRecord(data: seq<Byte>) returns (slot: Option<nat>)
      requires Valid()
      modifies this, bytes
      ensures Valid()
      ensures slot.None? <==> |data| + 4 > old(freeOffset) - (4 + 4 * |old(entries)|)
      ensures slot.Some? ==> slot.value == |old(entries)| && freeOffset == old(freeOffset) - |data|
      ensures slot.Some? ==> View().slots == old(View()).slots + [Some(data)]
      ensures slot.None? <==> !HasRoom(old(View()), data)
      ensures View() == if slot.Some? then Insert(old(View()), data) else old(View())
    {
      if |data| + SLOT_SIZE > freeOffset - (HEADER_SIZE + SLOT_SIZE * |entries|) {
        return None;
      }
      InsertIs(View(), data);
      ghost var before, slots := bytes[..], View().slots;
      var newOffset := freeOffset - |data|;
      Write(newOffset, data);
      forall i | 0 <= i < |entries|
        ensures SlotOf(bytes[..], entries[i]) == slots[i] && Behind(entries[i], newOffset, bytes.Length)
      {
        SpliceInFront(before, newOffset, data, entries[i]);
      }
      ghost var es := entries;
      slot := Some(|entries|);
      entries := entries + [Entry(newOffset, |data|)];
      freeOffset := newOffset;
      hide Splice, Ok, Insert;
      AppendedEntry(bytes[..], es, slots, newOffset, data);
      AppendedApart(es, Entry(newOffset, |data|), newOffset + |data|, bytes.Length);
    }

    method ReadRecord(slot: int) returns (data: Option<seq<Byte>>)
      requires Valid()
      ensures data == Read(View(), slot)
      ensures data == if 0 <= slot < |entries| && entries[slot].offset != 0
                      then Some(bytes[entries[slot].offset..entries[slot].offset + entries[slot].length]) else None
    {
      if slot < 0 || slot >= |entries| {
        return None;
      }
      var e := entries[slot];
      assert Behind(e, freeOffset, bytes.Length);
      if e.offset == TOMBSTONE_OFFSET {
        return None;
      }
      return Some(bytes[e.offset..e.offset + e.length]);
    }

    method DeleteRecord(slot: int) returns (removed: bool)
      requires Valid()
      modifies this`entries
      ensures Valid()
      ensures removed <==> Read(old(View()), slot).Some?
      ensures View() == Delete(old(View()), slot)
    {
      if slot < 0 || slot >= |entries| {
        return false;
      }
      ghost var before := View();
      assert Behind(entries[slot], freeOffset, bytes.Length);
      if entries[slot].offset == TOMBSTONE_OFFSET {
        return false;
      }
      DeleteIs(before, slot);
      ghost var es := entries;
      entries := entries[slot := Entry(TOMBSTONE_OFFSET, entries[slot].length)];
      forall i, j | 0 <= i < j < |entries|
        ensures Apart(entries, i, j)
      {
        assert Apart(es, i, j);
      }
      assert View().slots == before.slots[slot := None];
      return true;
    }

    /**
     Repack the live records against the end of the page. They are taken by descending
     offset, which is the order of their slots; a copy of the page is the source.
     */
    method CompactPage()
      requires Valid()
      modifies this, bytes
      ensures Valid() && View() == Compact(old(View()))
    {
      ghost var before := View();
      var snapshot := bytes[..];
      var cursor: nat := bytes.Length;
      ghost var from := entries;
      CompactIs(before);
      LiveBytesNone();
      assert before.slots[..0] == [];
      assert LiveBytes(before.slots) + HEADER_SIZE <= bytes.Length;
      hide Ok, Compact, Splice, SlotOf;
      for slot := 0 to |entries|
        invariant |entries| == |from| && freeOffset == old(freeOffset) && cursor + LiveBytes(before.slots[..slot]) == bytes.Length
        invariant forall i :: slot <= i < |entries| ==> entries[i] == from[i]
        invariant Packed(before.slots, bytes[..], entries, slot, cursor)
      {
        LiveBytesStep(before.slots, slot);
        LiveBytesPrefix(before.slots, slot + 1);
        var e := entries[slot];
        assert e == from[slot];
        assert Behind(e, freeOffset, |snapshot|) && before.slots[slot] == SlotOf(snapshot, e);
        LengthOfSlot(snapshot, e, freeOffset);
        if e.offset != TOMBSTONE_OFFSET {
          ghost var b, es := bytes[..], entries;
          cursor := cursor - e.length;
          Write(cursor, snapshot[e.offset..e.offset + e.length]);
          entries := entries[slot := Entry(cursor, e.length)];
          PackOne(before.slots, snapshot, b, es, slot, cursor, e);
        } else {
          PackNone(before.slots, bytes[..], entries, slot, cursor);
        }
      }
      assert before.slots[..|entries|] == before.slots;
      freeOffset := cursor;
      PackedAll(before.slots, bytes[..], entries, cursor);
    }
  }

  lemma LengthOfSlot(b: seq<Byte>, e: Entry, bound: nat)
    requires Behind(e, bound, |b|)
    ensures Length(SlotOf(b, e)) == if e.offset == TOMBSTONE_OFFSET then 0 else e.length
    ensures e.offset == TOMBSTONE_OFFSET <==> SlotOf(b, e).None?
  {
  }

  lemma AppendedEntry(b: seq<Byte>, es: seq<Entry>, slots: seq<Option<seq<Byte>>>, at: nat, data: seq<Byte>)
    requires |slots| == |es| && forall i :: 0 <= i < |es| ==> SlotOf(b, es[i]) == slots[i]
    requires at > 0 && at + |data| <= |b| && b[at..at + |data|] == data
    ensures SlotsOf(b, es + [Entry(at, |data|)]) == slots + [Some(data)]
  {
  }

  lemma AppendedApart(es: seq<Entry>, e: Entry, bound: nat, size: nat)
    requires e.offset + e.length <= bound && forall i :: 0 <= i < |es| ==> Behind(es[i], bound, size)
    requires forall i, j {:trigger Apart(es, i, j)} :: 0 <= i < j < |es| ==> Apart(es, i, j)
    ensures forall i, j {:trigger Apart(es + [e], i, j)} :: 0 <= i < j < |es| + 1 ==> Apart(es + [e], i, j)
  {
    forall i, j | 0 <= i < j < |es| + 1
      ensures Apart(es + [e], i, j)
    {
      if j < |es| {
        assert Apart(es, i, j);
      }
    }
  }

  /** The first `done` slots have their records packed behind the cursor. */
  ghost predicate Packed(slots: seq<Option<seq<Byte>>>, b: seq<Byte>, es: seq<Entry>, done: nat, cursor: nat) {
    && done <= |es| && |slots| == |es| && cursor <= |b|
    && (forall i :: 0 <= i < done ==> SlotOf(b, es[i]) == slots[i] && Behind(es[i], cursor, |b|))
    && (forall i, j {:trigger Apart(es, i, j)} :: 0 <= i < j < done ==> Apart(es, i, j))
  }

  lemma PackOne(slots: seq<Option<seq<Byte>>>, snapshot: seq<Byte>, b: seq<Byte>, es: seq<Entry>, slot: nat, cursor: nat, e: Entry)
    requires slot < |es| && cursor > 0 && |snapshot| == |b| && Packed(slots, b, es, slot, cursor + e.length)
    requires e == es[slot] && e.offset != TOMBSTONE_OFFSET && e.offset + e.length <= |b| && slots[slot] == SlotOf(snapshot, e)
    ensures Packed(slots, Splice(b, cursor, snapshot[e.offset..e.offset + e.length]), es[slot := Entry(cursor, e.length)], slot + 1, cursor)
  {
    var data := snapshot[e.offset..e.offset + e.length];
    var b' := Splice(b, cursor, data);
    var es' := es[slot := Entry(cursor, e.length)];
    forall i | 0 <= i < slot + 1
      ensures SlotOf(b', es'[i]) == slots[i] && Behind(es'[i], cursor, |b'|)
    {
      if i < slot {
        SpliceInFront(b, cursor, data, es[i]);
      }
    }
    forall i, j | 0 <= i < j < slot + 1
      ensures Apart(es', i, j)
    {
      if j < slot {
        assert Apart(es, i, j);
      }
    }
  }

  lemma PackNone(slots: seq<Option<seq<Byte>>>, b: seq<Byte>, es: seq<Entry>, slot: nat, cursor: nat)
    requires slot < |es| && Packed(slots, b, es, slot, cursor)
    requires es[slot].offset == TOMBSTONE_OFFSET && slots[slot].None?
    ensures Packed(slots, b, es, slot + 1, cursor)
  {
    forall i, j | 0 <= i < j < slot + 1
      ensures Apart(es, i, j)
    {
      if j < slot {
        assert Apart(es, i, j);
      }
    }
  }

  lemma PackedAll(slots: seq<Option<seq<Byte>>>, b: seq<Byte>, es: seq<Entry>, cursor: nat)
    requires Packed(slots, b, es, |es|, cursor)
    ensures SlotsOf(b, es) == slots
  {
  }

  lemma LiveBytesNone()
    ensures LiveBytes([]) == 0
  {
  }

  lemma LiveBytesStep(slots: seq<Option<seq<Byte>>>, i: nat)
    requires i < |slots|
    ensures LiveBytes(slots[..i + 1]) == LiveBytes(slots[..i]) + Length(slots[i])
  {
    assert slots[..i + 1][..i] == slots[..i];
  }

  lemma {:induction false} LiveBytesPrefix(slots: seq<Option<seq<Byte>>>, i: nat)
    requires i <= |slots|
    ensures LiveBytes(slots[..i]) <= LiveBytes(slots)
    decreases |slots| - i
  {
    if i == |slots| {
      assert slots[..i] == slots;
    } else {
      LiveBytesStep(slots, i);
      LiveBytesPrefix(slots, i + 1);
    }
  }
}
