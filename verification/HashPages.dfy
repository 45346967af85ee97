/**
 Pages of the extendible hash index and their entry accounting
 (engine/indexes/_hash_page.py).
 */
module HashPages {
  import opened Common
  import opened Sequences

  /** An encoded key: a sequence of bytes. */
  type Key = seq<nat>

  datatype Entry = Entry(key: Key, rid: RID)

  datatype Page =
    | Metadata(globalDepth: nat, maxDepth: nat, directoryPages: seq<nat>)
    | Directory(slots: seq<nat>)
    | Bucket(depth: nat, entries: seq<Entry>, freeOffset: nat, overflow: nat)

  const META_HEADER_SIZE: nat := 9
  const BUCKET_HEADER_SIZE: nat := 9
  const ENTRY_HEADER_SIZE: nat := 2
  const RID_SIZE: nat := 6
  const PAGE_ID_SIZE: nat := 4
  const NO_OVERFLOW: nat := 0

  function MaxDirectoryPages(pageSize: nat): int {
    (pageSize - META_HEADER_SIZE) / PAGE_ID_SIZE
  }

  function SlotsPerPage(pageSize: nat): nat {
    pageSize / PAGE_ID_SIZE
  }

  function EntrySize(key: Key): nat {
    ENTRY_HEADER_SIZE + |key| + RID_SIZE
  }

  function MaxKeySize(pageSize: nat): int {
    pageSize - BUCKET_HEADER_SIZE - ENTRY_HEADER_SIZE - RID_SIZE
  }

  function Bytes(es: seq<Entry>): nat {
    if es == [] then 0 else Bytes(es[..|es| - 1]) + EntrySize(es[|es| - 1].key)
  }

  lemma BytesAppend(es: seq<Entry>, e: Entry)
    ensures Bytes(es + [e]) == Bytes(es) + EntrySize(e.key)
  {
    assert (es + [e])[..|es|] == es;
  }

  lemma BytesOfNone()
    ensures Bytes([]) == 0
  {
  }

  /** The free offset is where the stored entries end, inside the page. */
  predicate Measured(pageSize: nat, p: Page) {
    p.Bucket? && p.freeOffset == BUCKET_HEADER_SIZE + Bytes(p.entries) <= pageSize
  }

  function NewBucket(depth: nat): Page {
    Bucket(depth, [], BUCKET_HEADER_SIZE, NO_OVERFLOW)
  }

  predicate HasRoom(pageSize: nat, p: Page, key: Key)
    requires p.Bucket?
  {
    EntrySize(key) <= pageSize - p.freeOffset
  }

  function AddEntry(pageSize: nat, p: Page, e: Entry): (r: Page)
    requires Measured(pageSize, p) && HasRoom(pageSize, p, e.key)
    ensures Measured(pageSize, r) && r.entries == p.entries + [e] && r.depth == p.depth && r.overflow == p.overflow
  {
    BytesAppend(p.entries, e);
    Bucket(p.depth, p.entries + [e], p.freeOffset + EntrySize(e.key), p.overflow)
  }

  /** write_entries: start over and append one entry after the other. */
  method WriteEntries(pageSize: nat, p: Page, es: seq<Entry>) returns (r: Page)
    requires p.Bucket? && BUCKET_HEADER_SIZE + Bytes(es) <= pageSize
    ensures Measured(pageSize, r) && r.entries == es && r.depth == p.depth && r.overflow == p.overflow
  {
    r := Bucket(p.depth, [], BUCKET_HEADER_SIZE, p.overflow);
    for i := 0 to |es|
      invariant Measured(pageSize, r) && r.entries == es[..i] && r.depth == p.depth && r.overflow == p.overflow
    {
      assert es[..i + 1] == es[..i] + [es[i]];
      BytesAppend(es[..i], es[i]);
      BytesPrefix(es, i + 1);
      r := AddEntry(pageSize, r, es[i]);
    }
    assert es[..|es|] == es;
  }

  lemma {:induction false} BytesPrefix(es: seq<Entry>, i: nat)
    requires i <= |es|
    ensures Bytes(es[..i]) <= Bytes(es)
    decreases |es| - i
  {
    if i < |es| {
      assert es[..i + 1] == es[..i] + [es[i]];
      BytesAppend(es[..i], es[i]);
      BytesPrefix(es, i + 1);
    } else {
      assert es[..i] == es;
    }
  }

  predicate Matches(e: Entry, key: Key, rid: Option<RID>) {
    e.key == key && (rid.None? || e.rid == rid.value)
  }

  function Unmatched(key: Key, rid: Option<RID>): Entry -> bool {
    (e: Entry) => !Matches(e, key, rid)
  }

  lemma UnmatchedIs(e: Entry, key: Key, rid: Option<RID>)
    ensures Unmatched(key, rid)(e) <==> !Matches(e, key, rid)
  {
  }

  /** Entries whose hash has this value at bit l. */
  function BitIs(hash: Key -> nat, l: nat, bit: nat): Entry -> bool {
    (e: Entry) => (hash(e.key) / Pow2(l)) % 2 == bit
  }

  lemma BitIsDefinition(e: Entry, hash: Key -> nat, l: nat, bit: nat)
    ensures BitIs(hash, l, bit)(e) <==> (hash(e.key) / Pow2(l)) % 2 == bit
  {
  }

  /** The entries that satisfy p, in order; the rest is what Keep leaves. */
  function Filter(es: seq<Entry>, p: Entry -> bool): (r: seq<Entry>)
    ensures Bytes(r) <= Bytes(es)
  {
    if es == [] then [] else
      var front, last := es[..|es| - 1], es[|es| - 1];
      if p(last) then BytesAppend(Filter(front, p), last); Filter(front, p) + [last] else Filter(front, p)
  }

  lemma FilterAppend(es: seq<Entry>, e: Entry, p: Entry -> bool)
    ensures Filter(es + [e], p) == Filter(es, p) + if p(e) then [e] else []
  {
    assert (es + [e])[..|es|] == es;
  }

  lemma {:induction false} FilterCount(es: seq<Entry>, p: Entry -> bool, e: Entry)
    ensures multiset(Filter(es, p))[e] == if p(e) then multiset(es)[e] else 0
  {
    if es != [] {
      FilterCount(es[..|es| - 1], p, e);
      assert es == es[..|es| - 1] + [es[|es| - 1]];
    }
  }

  lemma {:induction false} FilterTwice(es: seq<Entry>, p: Entry -> bool, q: Entry -> bool, both: Entry -> bool)
    requires forall e :: both(e) <==> p(e) && q(e)
    ensures Filter(Filter(es, p), q) == Filter(es, both)
  {
    if es != [] {
      var front, last := es[..|es| - 1], es[|es| - 1];
      FilterTwice(front, p, q, both);
      FilterAppend(Filter(front, p), last, q);
    }
  }

  lemma {:induction false} FilterAll(es: seq<Entry>, p: Entry -> bool)
    requires forall e :: e in es ==> p(e)
    ensures Filter(es, p) == es
  {
    if es != [] {
      FilterAll(es[..|es| - 1], p);
      assert es == es[..|es| - 1] + [es[|es| - 1]];
    }
  }

  lemma {:induction false} FilterShrinks(es: seq<Entry>, p: Entry -> bool, q: Entry -> bool)
    requires forall e :: p(e) ==> q(e)
    ensures Bytes(Filter(es, p)) <= Bytes(Filter(es, q))
  {
    if es != [] {
      var front, last := es[..|es| - 1], es[|es| - 1];
      FilterShrinks(front, p, q);
      BytesAppend(Filter(front, p), last);
      BytesAppend(Filter(front, q), last);
    }
  }

  /** What is left are the entries at these places, which are all that do not match, in order. */
  ghost predicate KeepsOthers(es: seq<Entry>, at: seq<nat>, key: Key, rid: Option<RID>, rest: seq<Entry>) {
    && Places(at, |es|) && |rest| == |at| && (forall j :: 0 <= j < |at| ==> rest[j] == es[at[j]])
    && (forall i {:trigger es[i]} :: 0 <= i < |es| ==> (i in at <==> es[i].key != key || (rid != None && rid != Some(es[i].rid))))
  }

  lemma MatchesIs(e: Entry, key: Key, rid: Option<RID>)
    ensures Matches(e, key, rid) <==> e.key == key && (rid == None || rid == Some(e.rid))
  {
  }

  lemma KeptOneMore(es: seq<Entry>, at: seq<nat>, key: Key, rid: Option<RID>, rest: seq<Entry>, e: Entry)
    requires KeepsOthers(es, at, key, rid, rest)
    ensures if e.key == key && (rid == None || rid == Some(e.rid)) then KeepsOthers(es + [e], at, key, rid, rest)
            else KeepsOthers(es + [e], at + [|es|], key, rid, rest + [e])
  {
    OneMorePlace(at, |es|);
    hide Places;
    forall i: nat | i < |es|
      ensures (es + [e])[i] == es[i]
    {
    }
  }

  lemma NoneKept(key: Key, rid: Option<RID>)
    ensures KeepsOthers([], [], key, rid, Filter([], Unmatched(key, rid)))
  {
  }

  lemma {:induction false} UnmatchedKept(es: seq<Entry>, key: Key, rid: Option<RID>) returns (at: seq<nat>)
    ensures KeepsOthers(es, at, key, rid, Filter(es, Unmatched(key, rid)))
  {
    hide *;
    if es == [] {
      at := [];
      NoneKept(key, rid);
    } else {
      var n := |es| - 1;
      var e, keep := es[n], Unmatched(key, rid);
      at := UnmatchedKept(es[..n], key, rid);
      UnmatchedIs(e, key, rid);
      MatchesIs(e, key, rid);
      FilterAppend(es[..n], e, keep);
      assert es == es[..n] + [e];
      KeptOneMore(es[..n], at, key, rid, Filter(es[..n], keep), e);
      if keep(e) {
        at := at + [n];
      } else {
        assert Filter(es[..n], keep) + [] == Filter(es[..n], keep);
      }
    }
  }

  /** The matching entries are gone, as often as they were there; the others stay as often as they were. */
  lemma UnmatchedCounts(es: seq<Entry>, key: Key, rid: Option<RID>)
    ensures forall e :: multiset(Filter(es, Unmatched(key, rid)))[e] ==
              if e.key == key && (rid == None || rid == Some(e.rid)) then 0 else multiset(es)[e]
    ensures exists at: seq<nat> :: KeepsOthers(es, at, key, rid, Filter(es, Unmatched(key, rid)))
  {
    hide *;
    forall e: Entry
      ensures multiset(Filter(es, Unmatched(key, rid)))[e] ==
              if e.key == key && (rid == None || rid == Some(e.rid)) then 0 else multiset(es)[e]
    {
      FilterCount(es, Unmatched(key, rid), e);
      UnmatchedIs(e, key, rid);
      MatchesIs(e, key, rid);
    }
    var at := UnmatchedKept(es, key, rid);
  }

  /** remove_entries: every entry that matches goes, duplicates included. */
  method RemoveEntries(pageSize: nat, p: Page, key: Key, rid: Option<RID>) returns (r: Page, removed: nat)
    requires Measured(pageSize, p)
    ensures Measured(pageSize, r) && r.depth == p.depth && r.overflow == p.overflow
    ensures r.entries == Filter(p.entries, Unmatched(key, rid))
    ensures forall e :: multiset(r.entries)[e] ==
              if e.key == key && (rid == None || rid == Some(e.rid)) then 0 else multiset(p.entries)[e]
    ensures exists at: seq<nat> :: KeepsOthers(p.entries, at, key, rid, r.entries)
    ensures removed == |p.entries| - |r.entries|
  {
    ghost var keep := Unmatched(key, rid);
    assert Filter([], keep) == [] && p.entries[..0] == [];
    hide Filter, Bytes, Unmatched;
    var kept := [];
    removed := 0;
    for i := 0 to |p.entries|
      invariant kept == Filter(p.entries[..i], keep)
      invariant removed == i - |kept|
    {
      var e := p.entries[i];
      assert p.entries[..i + 1] == p.entries[..i] + [e];
      FilterAppend(p.entries[..i], e, keep);
      UnmatchedIs(e, key, rid);
      if Matches(e, key, rid) {
        removed := removed + 1;
      } else {
        kept := kept + [e];
      }
    }
    assert p.entries[..|p.entries|] == p.entries;
    assert kept == Filter(p.entries, keep);
    if removed > 0 {
      r := WriteEntries(pageSize, p, kept);
    } else {
      r := p;
      FullFilter(p.entries, keep);
    }
    UnmatchedCounts(p.entries, key, rid);
  }

  lemma {:induction false} FullFilter(es: seq<Entry>, p: Entry -> bool)
    ensures |Filter(es, p)| <= |es|
    ensures |Filter(es, p)| == |es| ==> Filter(es, p) == es
  {
    if es != [] {
      FullFilter(es[..|es| - 1], p);
      assert es == es[..|es| - 1] + [es[|es| - 1]];
    }
  }

  // ----- suffixes of hashes -----

  function Pow2(n: nat): (r: nat)
    ensures r >= 1
  {
    if n == 0 then 1 else 2 * Pow2(n - 1)
  }

  /** The remainder by 2m is the remainder by m with one more bit in front. */
  lemma OneMoreBit(x: nat, m: nat)
    requires m > 0
    ensures x % (2 * m) == x % m + (if (x / m) % 2 == 1 then m else 0)
  {
    var q, r := x / m, x % m;
    assert x == m * q + r;
    var h, b := q / 2, q % 2;
    assert x == (2 * m) * h + (m * b + r) by {
      assert m * q == m * (2 * h + b) == 2 * m * h + m * b;
    }
    assert 0 <= m * b + r < 2 * m by {
      if b == 1 {
        assert m * b == m;
      } else {
        assert m * b == 0;
      }
    }
    RemainderUnique(x, 2 * m, h, m * b + r);
    assert b == 1 ==> m * b == m;
    assert b == 0 ==> m * b == 0;
  }

  lemma RemainderUnique(x: nat, m: nat, q: nat, r: nat)
    requires m > 0 && r < m && x == m * q + r
    ensures x % m == r && x / m == q
  {
    SameQuotient(m, q, r, x / m, x % m);
  }

  lemma SameQuotient(m: nat, q: int, r: nat, p: int, s: nat)
    requires r < m && s < m && m * q + r == m * p + s
    ensures q == p && r == s
  {
    assert m * (q - p) == m * q - m * p == s - r;
    assert m * (p - q) == r - s;
    if q > p {
      TimesAtLeastOne(m, q - p);
    } else if q < p {
      TimesAtLeastOne(m, p - q);
    }
  }

  lemma {:induction false} TimesAtLeastOne(m: nat, d: int)
    requires d >= 1
    ensures m * d >= m
    decreases d
  {
    if d > 1 {
      TimesAtLeastOne(m, d - 1);
      assert m * d == m * (d - 1) + m;
    }
  }

  /** Entries whose hash agrees with that of key on the last d bits. */
  function SharesSuffix(hash: Key -> nat, key: Key, d: nat): Entry -> bool {
    (e: Entry) => hash(e.key) % Pow2(d) == hash(key) % Pow2(d)
  }

  lemma SharesSuffixDefinition(e: Entry, hash: Key -> nat, key: Key, d: nat)
    ensures SharesSuffix(hash, key, d)(e) <==> hash(e.key) % Pow2(d) == hash(key) % Pow2(d)
  {
  }

  /** Bit d of the hash of key. */
  function NextBit(hash: Key -> nat, key: Key, d: nat): nat {
    (hash(key) / Pow2(d)) % 2
  }

  /** Agreeing on one bit more is agreeing so far and on that bit. */
  lemma LongerSuffix(hash: Key -> nat, key: Key, d: nat, e: Entry)
    ensures SharesSuffix(hash, key, d + 1)(e) <==>
            SharesSuffix(hash, key, d)(e) && BitIs(hash, d, NextBit(hash, key, d))(e)
  {
    OneMoreBit(hash(e.key), Pow2(d));
    OneMoreBit(hash(key), Pow2(d));
  }

  /** The entries that still agree with the key after its bucket is split once more. */
  lemma SharingHalf(es: seq<Entry>, hash: Key -> nat, key: Key, d: nat)
    ensures Filter(Filter(es, SharesSuffix(hash, key, d)), BitIs(hash, d, NextBit(hash, key, d))) ==
            Filter(es, SharesSuffix(hash, key, d + 1))
  {
    hide *;
    forall e: Entry
      ensures SharesSuffix(hash, key, d + 1)(e) <==>
              SharesSuffix(hash, key, d)(e) && BitIs(hash, d, NextBit(hash, key, d))(e)
    {
      LongerSuffix(hash, key, d, e);
    }
    FilterTwice(es, SharesSuffix(hash, key, d), BitIs(hash, d, NextBit(hash, key, d)), SharesSuffix(hash, key, d + 1));
  }

  /** The longer the common suffix, the fewer entries share it. */
  lemma SharingShrinks(es: seq<Entry>, hash: Key -> nat, key: Key, l: nat, d: nat)
    requires l <= d
    ensures Bytes(Filter(es, SharesSuffix(hash, key, d))) <= Bytes(Filter(es, SharesSuffix(hash, key, l)))
  {
    hide *;
    forall e: Entry | SharesSuffix(hash, key, d)(e)
      ensures SharesSuffix(hash, key, l)(e)
    {
      SharesSuffixDefinition(e, hash, key, d);
      SharesSuffixDefinition(e, hash, key, l);
      ModMod(hash(e.key), l, d);
      ModMod(hash(key), l, d);
    }
    FilterShrinks(es, SharesSuffix(hash, key, d), SharesSuffix(hash, key, l));
  }

  /** Dropping low digits: a remainder by a larger power determines the smaller ones. */
  lemma {:induction false} ModMod(x: nat, l: nat, g: nat)
    requires l <= g
    ensures (x % Pow2(g)) % Pow2(l) == x % Pow2(l)
    decreases g
  {
    if l == g {
      RemainderUnique(x % Pow2(l), Pow2(l), 0, x % Pow2(l));
    } else {
      ModMod(x, l, g - 1);
      OneMoreBit(x, Pow2(g - 1));
      ModMod(x % Pow2(g), l, g - 1);
      OneMoreBit(x % Pow2(g), Pow2(g - 1));
      ShiftMod(x % Pow2(g - 1), Pow2(g - 1));
    }
  }

  lemma ShiftMod(r: nat, m: nat)
    requires r < m
    ensures (r + m) % m == r && r % m == r
  {
    RemainderUnique(r + m, m, 1, r);
    RemainderUnique(r, m, 0, r);
  }

  lemma {:induction false} PowMonotone(l: nat, g: nat)
    requires l <= g
    ensures Pow2(l) <= Pow2(g)
    decreases g
  {
    if l < g {
      PowMonotone(l, g - 1);
    }
  }
}
