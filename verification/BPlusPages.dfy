/**
 Pages of the B+ tree and the size rules of their encoding: what decides that a node
 is full, and where an overfull node may be cut in two.
 */
module BPlusPages {
  import opened Common

  /** Keys are any totally ordered values; every countable order embeds in the reals. */
  type Key = real

  datatype Entry = Entry(key: Key, rid: RID)

  /** Page 0: where the tree starts. */
  datatype Metadata = Metadata(root: nat, firstLeaf: nat)

  /** A node page. */
  datatype Page =
    | LeafPage(parent: Option<nat>, next: Option<nat>, entries: seq<Entry>)
    | InternalPage(parent: Option<nat>, keys: seq<Key>, children: seq<nat>)

  const HEADER_SIZE: nat := 16
  const LENGTH_SIZE: nat := 4
  const RID_SIZE: nat := 8
  const PAGE_ID_SIZE: nat := 4
  const MAX_COUNT: nat := 0xFFFF
  const INT32_LIMIT: int := 0x8000_0000

  /** The parameters of the encoding: the page size and the encoded length of a key. */
  datatype Codec = Codec(pageSize: nat, keyBytes: Key -> nat)

  function LeafWeight(c: Codec, k: Key): nat {
    LENGTH_SIZE + c.keyBytes(k) + RID_SIZE
  }

  function KeyWeight(c: Codec, k: Key): nat {
    LENGTH_SIZE + c.keyBytes(k) + PAGE_ID_SIZE
  }

  function Total(ws: seq<nat>): nat {
    if ws == [] then 0 else ws[0] + Total(ws[1..])
  }

  function LeafWeights(c: Codec, es: seq<Entry>): seq<nat> {
    seq(|es|, i requires 0 <= i < |es| => LeafWeight(c, es[i].key))
  }

  function KeyWeights(c: Codec, ks: seq<Key>): seq<nat> {
    seq(|ks|, i requires 0 <= i < |ks| => KeyWeight(c, ks[i]))
  }

  predicate RidInRange(r: RID) {
    -INT32_LIMIT <= r.pageId < INT32_LIMIT && -INT32_LIMIT <= r.slot < INT32_LIMIT
  }

  /** A leaf with these entries encodes into one page. */
  predicate LeafFits(c: Codec, es: seq<Entry>) {
    && |es| <= MAX_COUNT
    && HEADER_SIZE + Total(LeafWeights(c, es)) <= c.pageSize
    && forall i :: 0 <= i < |es| ==> RidInRange(es[i].rid)
  }

  /** An internal node with these separators encodes into one page. */
  predicate InternalFits(c: Codec, ks: seq<Key>) {
    && |ks| <= MAX_COUNT
    && HEADER_SIZE + PAGE_ID_SIZE + Total(KeyWeights(c, ks)) <= c.pageSize
  }

  /** A leaf entry with this key takes at most half of a page body. */
  predicate HalfPage(c: Codec, k: Key) {
    HEADER_SIZE + 2 * LeafWeight(c, k) <= c.pageSize
  }

  /** A single entry with this key fits an otherwise empty leaf. */
  predicate FitsAlone(c: Codec, k: Key) {
    HEADER_SIZE + LeafWeight(c, k) <= c.pageSize
  }

  predicate LeafCut(c: Codec, es: seq<Entry>, p: nat) {
    1 <= p < |es| && LeafFits(c, es[..p]) && LeafFits(c, es[p..])
  }

  predicate InternalCut(c: Codec, ks: seq<Key>, p: nat) {
    1 <= p && p + 1 < |ks| && InternalFits(c, ks[..p]) && InternalFits(c, ks[p + 1..])
  }

  function Abs(x: int): nat {
    if x < 0 then -x else x
  }

  /** Candidate p comes before candidate q: nearer the middle of n, leftmost among equals. */
  predicate Before(n: int, p: int, q: int) {
    Abs(n - 2 * p) < Abs(n - 2 * q) || (Abs(n - 2 * p) == Abs(n - 2 * q) && p <= q)
  }

  /** Twice the distance of a cut at p from the middle of n. */
  ghost function OffMiddle(n: int, p: int): int {
    if 2 * p <= n then n - 2 * p else 2 * p - n
  }

  /** The first admissible cut in the order of the candidates, if there is one. */
  method ChooseLeafSplit(c: Codec, es: seq<Entry>) returns (r: Option<nat>)
    ensures r.Some? ==> LeafCut(c, es, r.value)
    ensures r.Some? ==> forall q: nat :: LeafCut(c, es, q) ==> Before(|es|, r.value, q)
    ensures r.Some? ==> forall q: nat :: LeafCut(c, es, q) ==>
              OffMiddle(|es|, r.value) < OffMiddle(|es|, q) || (OffMiddle(|es|, r.value) == OffMiddle(|es|, q) && r.value <= q)
    ensures r.None? ==> forall q: nat :: !LeafCut(c, es, q)
  {
    r := None;
    var p := 1;
    while p < |es|
      invariant 1 <= p
      invariant r.Some? ==> LeafCut(c, es, r.value)
      invariant r.Some? ==> forall q: nat :: LeafCut(c, es, q) && q < p ==> Before(|es|, r.value, q)
      invariant r.None? ==> forall q: nat :: LeafCut(c, es, q) ==> p <= q
    {
      if LeafFits(c, es[..p]) && LeafFits(c, es[p..]) && (r.None? || !Before(|es|, r.value, p)) {
        r := Some(p);
      }
      p := p + 1;
    }
  }

  method ChooseInternalSplit(c: Codec, ks: seq<Key>) returns (r: Option<nat>)
    ensures r.Some? ==> InternalCut(c, ks, r.value)
    ensures r.Some? ==> forall q: nat :: InternalCut(c, ks, q) ==> Before(|ks| - 1, r.value, q)
    ensures r.Some? ==> forall q: nat :: InternalCut(c, ks, q) ==>
              OffMiddle(|ks| - 1, r.value) < OffMiddle(|ks| - 1, q) || (OffMiddle(|ks| - 1, r.value) == OffMiddle(|ks| - 1, q) && r.value <= q)
    ensures r.None? ==> forall q: nat :: !InternalCut(c, ks, q)
  {
    r := None;
    var p := 0;
    while p < |ks|
      invariant 0 <= p
      invariant r.Some? ==> InternalCut(c, ks, r.value)
      invariant r.Some? ==> forall q: nat :: InternalCut(c, ks, q) && q < p ==> Before(|ks| - 1, r.value, q)
      invariant r.None? ==> forall q: nat :: InternalCut(c, ks, q) ==> p <= q
    {
      if 1 <= p && p + 1 < |ks| && InternalFits(c, ks[..p]) && InternalFits(c, ks[p + 1..])
         && (r.None? || !Before(|ks| - 1, r.value, p)) {
        r := Some(p);
      }
      p := p + 1;
    }
  }

  ghost predicate IsLeafCut(c: Codec, es: seq<Entry>, p: nat) {
    LeafCut(c, es, p) && forall q: nat :: LeafCut(c, es, q) ==> Before(|es|, p, q)
  }

  ghost predicate IsInternalCut(c: Codec, ks: seq<Key>, p: nat) {
    InternalCut(c, ks, p) && forall q: nat :: InternalCut(c, ks, q) ==> Before(|ks| - 1, p, q)
  }

  /** Two cuts are never equally good, so there is one the choice can fall on. */
  lemma OneBest(n: int, p: nat, q: nat)
    requires Before(n, p, q) && Before(n, q, p)
    ensures p == q
  {
  }

  // ----- the sizes in bytes -----

  /** What entries take: four bytes for the length of the key, the key, eight bytes for the RID. */
  ghost function LeafBytes(c: Codec, es: seq<Entry>): nat {
    if es == [] then 0 else 4 + c.keyBytes(es[0].key) + 8 + LeafBytes(c, es[1..])
  }

  /** What separators take, each with the page id of the child behind it. */
  ghost function SeparatorBytes(c: Codec, ks: seq<Key>): nat {
    if ks == [] then 0 else 4 + c.keyBytes(ks[0]) + 4 + SeparatorBytes(c, ks[1..])
  }

  lemma {:induction false} TotalIsLeafBytes(c: Codec, es: seq<Entry>)
    ensures Total(LeafWeights(c, es)) == LeafBytes(c, es)
  {
    if es != [] {
      TotalIsLeafBytes(c, es[1..]);
      assert LeafWeights(c, es)[1..] == LeafWeights(c, es[1..]);
    }
  }

  lemma {:induction false} TotalIsSeparatorBytes(c: Codec, ks: seq<Key>)
    ensures Total(KeyWeights(c, ks)) == SeparatorBytes(c, ks)
  {
    if ks != [] {
      TotalIsSeparatorBytes(c, ks[1..]);
      assert KeyWeights(c, ks)[1..] == KeyWeights(c, ks[1..]);
    }
  }

  /** When a node encodes into one page. */
  lemma FitsInBytes(c: Codec, es: seq<Entry>, ks: seq<Key>, k: Key)
    ensures LeafFits(c, es) <==>
            && |es| <= 65535 && 16 + LeafBytes(c, es) <= c.pageSize
            && forall e :: e in es ==> -2147483648 <= e.rid.pageId <= 2147483647 && -2147483648 <= e.rid.slot <= 2147483647
    ensures InternalFits(c, ks) <==> |ks| <= 65535 && 16 + 4 + SeparatorBytes(c, ks) <= c.pageSize
    ensures HalfPage(c, k) <==> 16 + 2 * (4 + c.keyBytes(k) + 8) <= c.pageSize
    ensures FitsAlone(c, k) <==> 16 + 4 + c.keyBytes(k) + 8 <= c.pageSize
  {
    TotalIsLeafBytes(c, es);
    TotalIsSeparatorBytes(c, ks);
  }

  // ----- sums of weights -----

  lemma {:induction false} TotalAppend(a: seq<nat>, b: seq<nat>)
    ensures Total(a + b) == Total(a) + Total(b)
  {
    if a == [] {
      assert a + b == b;
    } else {
      assert (a + b)[1..] == a[1..] + b;
      TotalAppend(a[1..], b);
    }
  }

  lemma TotalCut(ws: seq<nat>, p: nat)
    requires p <= |ws|
    ensures Total(ws) == Total(ws[..p]) + Total(ws[p..])
  {
    assert ws == ws[..p] + ws[p..];
    TotalAppend(ws[..p], ws[p..]);
  }

  lemma TotalTake(ws: seq<nat>, p: nat)
    requires p < |ws|
    ensures Total(ws[..p + 1]) == Total(ws[..p]) + ws[p]
    ensures Total(ws[p..]) == ws[p] + Total(ws[p + 1..])
  {
    assert ws[..p + 1] == ws[..p] + [ws[p]];
    TotalAppend(ws[..p], [ws[p]]);
    assert Total([ws[p]]) == ws[p];
    assert ws[p..] == [ws[p]] + ws[p + 1..];
  }

  /** Weights of at most half the capacity, in sum at most one and a half of it, can be cut in two. */
  lemma CutExists(ws: seq<nat>, cap: nat) returns (p: nat)
    requires forall i :: 0 <= i < |ws| ==> 2 * ws[i] <= cap
    requires cap < Total(ws) && 2 * Total(ws) <= 3 * cap
    ensures 1 <= p < |ws|
    ensures Total(ws[..p]) <= cap && Total(ws[p..]) <= cap
    ensures 2 * Total(ws[..p - 1]) <= cap
    ensures cap < Total(ws[p - 1..])
  {
    p := 0;
    assert ws[0..] == ws;
    while Total(ws[p..]) > cap
      invariant p <= |ws|
      invariant p > 0 ==> Total(ws[p - 1..]) > cap
      decreases |ws| - p
    {
      assert p < |ws|;
      p := p + 1;
    }
    TotalCut(ws, p - 1);
    TotalTake(ws, p - 1);
  }

  lemma LeafWeightsSlice(c: Codec, es: seq<Entry>, p: nat)
    requires p <= |es|
    ensures LeafWeights(c, es[..p]) == LeafWeights(c, es)[..p]
    ensures LeafWeights(c, es[p..]) == LeafWeights(c, es)[p..]
  {
  }

  lemma KeyWeightsSlice(c: Codec, ks: seq<Key>, p: nat)
    requires p <= |ks|
    ensures KeyWeights(c, ks[..p]) == KeyWeights(c, ks)[..p]
    ensures KeyWeights(c, ks[p..]) == KeyWeights(c, ks)[p..]
  {
  }

  function InsertAt<T>(s: seq<T>, i: nat, x: T): seq<T>
    requires i <= |s|
  {
    s[..i] + [x] + s[i..]
  }

  lemma LeafTotalInsert(c: Codec, es: seq<Entry>, i: nat, e: Entry)
    requires i <= |es|
    ensures Total(LeafWeights(c, InsertAt(es, i, e))) == Total(LeafWeights(c, es)) + LeafWeight(c, e.key)
  {
    var ws := LeafWeights(c, es);
    var w := LeafWeight(c, e.key);
    assert LeafWeights(c, InsertAt(es, i, e)) == ws[..i] + ([w] + ws[i..]);
    TotalAppend(ws[..i], [w] + ws[i..]);
    TotalAppend([w], ws[i..]);
    assert Total([w]) == w;
    TotalCut(ws, i);
  }

  lemma KeyTotalInsert(c: Codec, ks: seq<Key>, i: nat, k: Key)
    requires i <= |ks|
    ensures Total(KeyWeights(c, InsertAt(ks, i, k))) == Total(KeyWeights(c, ks)) + KeyWeight(c, k)
  {
    var ws := KeyWeights(c, ks);
    var w := KeyWeight(c, k);
    assert KeyWeights(c, InsertAt(ks, i, k)) == ws[..i] + ([w] + ws[i..]);
    TotalAppend(ws[..i], [w] + ws[i..]);
    TotalAppend([w], ws[i..]);
    assert Total([w]) == w;
    TotalCut(ws, i);
  }

  lemma LeafHalvesFit(c: Codec, es: seq<Entry>, p: nat)
    requires 1 <= p < |es| && |es| <= MAX_COUNT + 1
    requires forall j :: 0 <= j < |es| ==> RidInRange(es[j].rid)
    requires HEADER_SIZE + Total(LeafWeights(c, es)[..p]) <= c.pageSize
    requires HEADER_SIZE + Total(LeafWeights(c, es)[p..]) <= c.pageSize
    ensures LeafCut(c, es, p)
  {
    LeafWeightsSlice(c, es, p);
  }

  /**
   A leaf that fitted and overflows by one more entry can always be cut, provided no
   entry takes more than half a page body.
   */
  lemma LeafCutExists(c: Codec, es: seq<Entry>, i: nat, e: Entry) returns (p: nat)
    requires i <= |es| && LeafFits(c, es) && RidInRange(e.rid)
    requires !LeafFits(c, InsertAt(es, i, e))
    requires HalfPage(c, e.key) && forall j :: 0 <= j < |es| ==> HalfPage(c, es[j].key)
    ensures LeafCut(c, InsertAt(es, i, e), p)
  {
    var all := InsertAt(es, i, e);
    var ws := LeafWeights(c, all);
    var cap := c.pageSize - HEADER_SIZE;
    LeafTotalInsert(c, es, i, e);
    forall j | 0 <= j < |all|
      ensures 2 * ws[j] <= cap && RidInRange(all[j].rid)
    {
      assert all[j] == if j < i then es[j] else if j == i then e else es[j - 1];
    }
    if Total(ws) <= cap {
      p := 1;
      TotalCut(ws, p);
    } else {
      p := CutExists(ws, cap);
    }
    LeafHalvesFit(c, all, p);
  }

  /** The same for the separators of an internal node. */
  lemma InternalCutExists(c: Codec, ks: seq<Key>, i: nat, k: Key) returns (p: nat)
    requires i <= |ks| && InternalFits(c, ks)
    requires !InternalFits(c, InsertAt(ks, i, k))
    requires HalfPage(c, k) && forall j :: 0 <= j < |ks| ==> HalfPage(c, ks[j])
    ensures InternalCut(c, InsertAt(ks, i, k), p)
  {
    var all := InsertAt(ks, i, k);
    var ws := KeyWeights(c, all);
    var cap := c.pageSize - HEADER_SIZE - PAGE_ID_SIZE;
    KeyTotalInsert(c, ks, i, k);
    forall j | 0 <= j < |all|
      ensures 2 * ws[j] <= cap
    {
      assert all[j] == if j < i then ks[j] else if j == i then k else ks[j - 1];
    }
    if Total(ws) <= cap {
      p := 1;
      TotalCut(ws, p);
      TotalCut(ws, p + 1);
    } else {
      var q := CutExists(ws, cap);
      p := if q == 1 then 1 else q - 1;
      TotalTake(ws, q);
      TotalTake(ws, q - 1);
      if q == 1 {
        TotalCut(ws, 2);
      }
    }
    KeyWeightsSlice(c, all, p);
    KeyWeightsSlice(c, all, p + 1);
  }
}
