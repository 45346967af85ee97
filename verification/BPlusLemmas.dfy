/**
 Facts about the paged B+ tree that the operations rest on: the entries in leaf order are
 sorted, a descent stops at the right leaf, and a leaf may be rewritten or a root put on
 top without disturbing the rest of the tree.

 Searches: a descent with left bias ends in a leaf such that nothing to its left can match,
 one with right bias in the leaf an insert belongs to. From there the leaf chain is read
 until a larger key turns up, and because the chain is sorted nothing behind it matches.
 Removals: the chain is sifted leaf by leaf; after each leaf, what is kept so far and what
 has not been visited yet are together the old contents without the entries that went.
 Growth: a new root over the old one is a tree with one more level whose two top nodes may
 be unfinished; the split of the old root finishes both.
 */
module BPlusLemmas {
  import opened Common
  import opened BPlusPages
  import opened BPlusInvariant
  import opened BPlusSplit

  // ----- what the operations answer, in terms of the entries in leaf order -----

  predicate KeySorted(es: seq<Entry>) {
    forall i, j :: 0 <= i < j < |es| ==> es[i].key <= es[j].key
  }

  /** The RIDs whose key lies in [lo, hi], in order. */
  function InRange(es: seq<Entry>, lo: Key, hi: Key): seq<RID> {
    if es == [] then []
    else (if lo <= es[0].key <= hi then [es[0].rid] else []) + InRange(es[1..], lo, hi)
  }

  /** The RIDs stored under key, in order. */
  function Matching(es: seq<Entry>, key: Key): seq<RID> {
    InRange(es, key, key)
  }

  /** What remains after removing every entry under key, or the first one naming rid. */
  function Without(es: seq<Entry>, key: Key, rid: Option<RID>): seq<Entry> {
    if es == [] then []
    else if es[0].key == key && (rid.None? || rid.value == es[0].rid) then
      if rid.None? then Without(es[1..], key, rid) else es[1..]
    else [es[0]] + Without(es[1..], key, rid)
  }

  // ----- searching sorted separators -----

  function BisectLeft(ks: seq<Key>, key: Key): (i: nat)
    ensures i <= |ks|
    ensures forall j :: 0 <= j < i ==> ks[j] < key
    ensures i < |ks| ==> key <= ks[i]
  {
    if ks == [] || key <= ks[0] then 0 else 1 + BisectLeft(ks[1..], key)
  }

  function BisectRight(ks: seq<Key>, key: Key): (i: nat)
    ensures i <= |ks|
    ensures forall j :: 0 <= j < i ==> ks[j] <= key
    ensures i < |ks| ==> key < ks[i]
  {
    if ks == [] || key < ks[0] then 0 else 1 + BisectRight(ks[1..], key)
  }

  /** Every key below this node's left end is smaller than key. */
  predicate StartsBelow(lo: Bound, key: Key) {
    lo.NegInf? || (lo.Fin? && lo.key < key)
  }

  /** The node's interval takes key, preferring the right of two equal separators. */
  predicate Takes(lo: Bound, hi: Bound, key: Key) {
    Le(lo, Fin(key)) && (hi.PosInf? || (hi.Fin? && key < hi.key))
  }

  lemma DescendLeft(c: Codec, P: Pages, s: Shape, root: nat, ex: set<nat>, id: nat, key: Key)
    requires Inv(c, P, s, root, ex) && id in s.level && s.level[id] > 0
    requires StartsBelow(s.lo[id], key)
    ensures var i := BisectLeft(P[id].keys, key);
            var x := P[id].children[i];
            x in s.level && s.level[x] + 1 == s.level[id] && StartsBelow(s.lo[x], key)
  {
    hide KidsOk, SizesOk, ChainOk;
    var i := BisectLeft(P[id].keys, key);
    assert NodeBounds(P, s, id);
    assert ChildBounds(s, id, P[id].keys, P[id].children[i], i);
    assert ChildLinked(P, s, id, Children(P, id)[i]);
  }

  lemma DescendRight(c: Codec, P: Pages, s: Shape, root: nat, id: nat, key: Key)
    requires Inv(c, P, s, root, {}) && id in s.level && s.level[id] > 0
    requires Takes(s.lo[id], s.hi[id], key)
    ensures var i := BisectRight(P[id].keys, key);
            var x := P[id].children[i];
            x in s.level && s.level[x] + 1 == s.level[id] && Takes(s.lo[x], s.hi[x], key)
  {
    hide KidsOk, SizesOk, ChainOk;
    var i := BisectRight(P[id].keys, key);
    assert NodeBounds(P, s, id);
    assert ChildBounds(s, id, P[id].keys, P[id].children[i], i);
    assert ChildLinked(P, s, id, Children(P, id)[i]);
  }

  // ----- the leaves in order -----

  /** Leaf i holds only keys between its ends. */
  lemma LeafKeys(c: Codec, P: Pages, s: Shape, root: nat, ex: set<nat>, i: nat)
    requires Inv(c, P, s, root, ex) && i < |s.levels[0]|
    ensures s.levels[0][i] in s.level
    ensures forall e :: e in Entries(P, s.levels[0][i]) ==>
      Le(s.lo[s.levels[0][i]], Fin(e.key)) && Le(Fin(e.key), s.hi[s.levels[0][i]])
    ensures SortedEntries(Entries(P, s.levels[0][i]))
  {
    hide LinksOk, KidsOk, SizesOk, ChainOk;
    assert LeafBounds(P, s, s.levels[0][i]);
  }

  lemma {:induction false} KeysBefore(c: Codec, P: Pages, s: Shape, root: nat, ex: set<nat>, i: nat)
    requires Inv(c, P, s, root, ex) && i < |s.levels[0]|
    ensures s.levels[0][i] in s.level
    ensures forall e :: e in AllEntries(P, s.levels[0][..i]) ==> Le(Fin(e.key), s.lo[s.levels[0][i]])
  {
    hide LinksOk, KidsOk, SizesOk;
    var L := s.levels[0];
    if i > 0 {
      KeysBefore(c, P, s, root, ex, i - 1);
      LeafKeys(c, P, s, root, ex, i - 1);
      assert LeafLinked(P, s, i - 1);
      assert IntervalOk(s, L[i - 1]);
      assert L[..i] == L[..i - 1] + [L[i - 1]];
      FlatAppend(EntriesOf(P), L[..i - 1], [L[i - 1]]);
      assert Flat(EntriesOf(P), [L[i - 1]]) == Entries(P, L[i - 1]);
    }
  }

  lemma SortedConcat(a: seq<Entry>, b: seq<Entry>, mid: Bound)
    requires KeySorted(a) && SortedEntries(b)
    requires forall e :: e in a ==> Le(Fin(e.key), mid)
    requires forall e :: e in b ==> Le(mid, Fin(e.key))
    requires !mid.PosInf?
    ensures KeySorted(a + b)
  {
    forall i: nat, j: nat | i < j < |a + b|
      ensures (a + b)[i].key <= (a + b)[j].key
    {
      if |a| <= i {
        assert EntryLe(b[i - |a|], b[j - |a|]);
      } else if |a| <= j {
        assert a[i] in a && b[j - |a|] in b;
      }
    }
  }

  lemma {:induction false} PrefixSorted(c: Codec, P: Pages, s: Shape, root: nat, ex: set<nat>, i: nat)
    requires Inv(c, P, s, root, ex) && i <= |s.levels[0]|
    ensures KeySorted(AllEntries(P, s.levels[0][..i]))
  {
    hide KindsOk, LinksOk, KidsOk, SizesOk, ChainOk;
    var L := s.levels[0];
    if i > 0 {
      PrefixSorted(c, P, s, root, ex, i - 1);
      KeysBefore(c, P, s, root, ex, i - 1);
      LeafKeys(c, P, s, root, ex, i - 1);
      PrefixStep(P, L, i - 1);
      assert IntervalOk(s, L[i - 1]);
      SortedConcat(AllEntries(P, L[..i - 1]), Entries(P, L[i - 1]), s.lo[L[i - 1]]);
    }
  }

  /** The entries, leaf after leaf, are in non-decreasing key order. */
  lemma EntriesSorted(c: Codec, P: Pages, s: Shape, root: nat, ex: set<nat>)
    requires Inv(c, P, s, root, ex)
    ensures KeySorted(AllEntries(P, s.levels[0]))
  {
    hide KindsOk, LinksOk, KidsOk, SizesOk, BoundsOk, ChainOk;
    PrefixSorted(c, P, s, root, ex, |s.levels[0]|);
    assert s.levels[0][..|s.levels[0]|] == s.levels[0];
  }

  // ----- the answers and how they are cut into prefixes -----

  lemma {:induction false} InRangeAppend(a: seq<Entry>, b: seq<Entry>, lo: Key, hi: Key)
    ensures InRange(a + b, lo, hi) == InRange(a, lo, hi) + InRange(b, lo, hi)
  {
    if a == [] {
      assert a + b == b;
    } else {
      var head := if lo <= a[0].key <= hi then [a[0].rid] else [];
      assert (a + b)[1..] == a[1..] + b;
      InRangeAppend(a[1..], b, lo, hi);
      assert head + (InRange(a[1..], lo, hi) + InRange(b, lo, hi)) == (head + InRange(a[1..], lo, hi)) + InRange(b, lo, hi);
    }
  }

  lemma {:induction false} NothingInRange(es: seq<Entry>, lo: Key, hi: Key)
    requires forall e :: e in es ==> !(lo <= e.key <= hi)
    ensures InRange(es, lo, hi) == []
  {
    if es != [] {
      assert es[0] in es;
      NothingInRange(es[1..], lo, hi);
    }
  }

  lemma RangeEndsAt(es: seq<Entry>, k: nat, lo: Key, hi: Key)
    requires KeySorted(es) && k < |es| && hi < es[k].key
    ensures InRange(es, lo, hi) == InRange(es[..k], lo, hi)
  {
    assert es == es[..k] + es[k..];
    InRangeAppend(es[..k], es[k..], lo, hi);
    forall e | e in es[k..]
      ensures !(lo <= e.key <= hi)
    {
      var i :| k <= i < |es| && es[i] == e;
      assert es[k].key <= es[i].key;
    }
    NothingInRange(es[k..], lo, hi);
  }

  lemma RangeNext(es: seq<Entry>, j: nat, lo: Key, hi: Key)
    requires j < |es|
    ensures InRange(es[..j + 1], lo, hi)
            == InRange(es[..j], lo, hi) + if lo <= es[j].key <= hi then [es[j].rid] else []
  {
    assert es[..j + 1] == es[..j] + [es[j]];
    InRangeAppend(es[..j], [es[j]], lo, hi);
  }

  lemma RangeLeaf(P: Pages, L: seq<nat>, i: nat, lo: Key, hi: Key)
    requires i < |L|
    ensures InRange(AllEntries(P, L[..i + 1]), lo, hi)
            == InRange(AllEntries(P, L[..i]), lo, hi) + InRange(Entries(P, L[i]), lo, hi)
  {
    PrefixStep(P, L, i);
    InRangeAppend(AllEntries(P, L[..i]), Entries(P, L[i]), lo, hi);
  }

  /** Entries a to b were read: none is beyond hi, and the next one, if any, is. */
  ghost predicate ReadUpTo(es: seq<Entry>, a: nat, b: nat, hi: Key) {
    && a <= b <= |es|
    && (forall i :: a <= i < b ==> es[i].key <= hi)
    && (b < |es| ==> es[b].key > hi)
  }

  /** Reading ascending entries from a place before which nothing can match gives the whole answer. */
  lemma ReadIsAll(es: seq<Entry>, a: nat, b: nat, lo: Key, hi: Key)
    requires KeySorted(es) && ReadUpTo(es, a, b, hi) && forall e :: e in es[..a] ==> e.key < lo
    ensures InRange(es[a..b], lo, hi) == InRange(es, lo, hi)
  {
    assert es[..b] == es[..a] + es[a..b];
    InRangeAppend(es[..a], es[a..b], lo, hi);
    NothingInRange(es[..a], lo, hi);
    if b < |es| {
      RangeEndsAt(es, b, lo, hi);
    } else {
      assert es[..b] == es;
    }
  }

  /** The walk along the pages L, stopped before entry j of leaf i. */
  lemma ReadStops(P: Pages, pre: seq<Entry>, L: seq<nat>, i: nat, j: nat, lo: Key, hi: Key) returns (b: nat)
    requires i < |L| && j < |Entries(P, L[i])| && hi < Entries(P, L[i])[j].key
    requires forall e :: e in AllEntries(P, L[..i]) || e in Entries(P, L[i])[..j] ==> e.key <= hi
    ensures ReadUpTo(pre + AllEntries(P, L), |pre|, b, hi)
    ensures InRange((pre + AllEntries(P, L))[|pre|..b], lo, hi)
            == InRange(AllEntries(P, L[..i]), lo, hi) + InRange(Entries(P, L[i])[..j], lo, hi)
  {
    var a: seq<Entry>, es := AllEntries(P, L[..i]), Entries(P, L[i]);
    FlatAround(EntriesOf(P), L, i);
    var all := pre + AllEntries(P, L);
    b := |pre| + |a| + j;
    assert all[|pre|..b] == a + es[..j];
    assert all[b] == es[j];
    InRangeAppend(a, es[..j], lo, hi);
    forall k | |pre| <= k < b
      ensures all[k].key <= hi
    {
      assert all[k] == (a + es[..j])[k - |pre|];
    }
  }

  lemma ReadToEnd(pre: seq<Entry>, es: seq<Entry>, hi: Key)
    requires forall e :: e in es ==> e.key <= hi
    ensures ReadUpTo(pre + es, |pre|, |pre| + |es|, hi) && (pre + es)[|pre|..|pre| + |es|] == es
  {
    forall k | |pre| <= k < |pre + es|
      ensures (pre + es)[k].key <= hi
    {
      assert (pre + es)[k] == es[k - |pre|];
    }
  }

  lemma {:induction false} WithoutNone(es: seq<Entry>, key: Key, rid: Option<RID>)
    requires forall e :: e in es ==> e.key != key || (rid.Some? && rid.value != e.rid)
    ensures Without(es, key, rid) == es
  {
    if es != [] {
      assert es[0] in es;
      WithoutNone(es[1..], key, rid);
    }
  }

  lemma {:induction false} WithoutAppend(a: seq<Entry>, b: seq<Entry>, key: Key, rid: Option<RID>)
    ensures Without(a + b, key, rid) ==
      if rid.Some? && Without(a, key, rid) != a then Without(a, key, rid) + b
      else Without(a, key, rid) + Without(b, key, rid)
  {
    if a == [] {
      assert a + b == b;
    } else {
      assert (a + b)[1..] == a[1..] + b;
      WithoutAppend(a[1..], b, key, rid);
      WithoutShrinks(a, key, rid);
      WithoutShrinks(a[1..], key, rid);
    }
  }

  lemma {:induction false} WithoutShrinks(es: seq<Entry>, key: Key, rid: Option<RID>)
    ensures |Without(es, key, rid)| <= |es|
    ensures |Without(es, key, rid)| == |es| <==> Without(es, key, rid) == es
    ensures rid.Some? ==> |Without(es, key, rid)| >= |es| - 1
    ensures forall e :: e in Without(es, key, rid) ==> e in es
  {
    if es != [] {
      WithoutShrinks(es[1..], key, rid);
    }
  }

  /** How the removal from a prefix grows by one entry. */
  lemma WithoutNext(es: seq<Entry>, j: nat, key: Key, rid: Option<RID>)
    requires j < |es|
    ensures var sofar := Without(es[..j], key, rid);
            Without(es[..j + 1], key, rid) ==
              if es[j].key == key && (rid.None? || (|sofar| == j && es[j].rid == rid.value)) then sofar
              else sofar + [es[j]]
  {
    assert es[..j + 1] == es[..j] + [es[j]];
    WithoutAppend(es[..j], [es[j]], key, rid);
    WithoutShrinks(es[..j], key, rid);
    assert es[..j + 1][..j] == es[..j];
  }

  /** A removal keeps exactly the other entries: by multiplicity, over all entries. */
  lemma {:induction false} WithoutCounts(es: seq<Entry>, key: Key, rid: Option<RID>, e: Entry)
    ensures multiset(Without(es, key, rid))[e] ==
      if e.key != key then multiset(es)[e]
      else if rid.None? then 0
      else if e.rid == rid.value && e in es then multiset(es)[e] - 1
      else multiset(es)[e]
  {
    if es != [] {
      assert es == [es[0]] + es[1..];
      WithoutCounts(es[1..], key, rid, e);
    }
  }

  /** The entries with key in [lo, hi], in order. */
  function Within(es: seq<Entry>, lo: Key, hi: Key): seq<Entry> {
    if es == [] then []
    else (if lo <= es[0].key <= hi then [es[0]] else []) + Within(es[1..], lo, hi)
  }

  function Rids(es: seq<Entry>): seq<RID> {
    seq(|es|, i requires 0 <= i < |es| => es[i].rid)
  }

  lemma RidsAppend(a: seq<Entry>, b: seq<Entry>)
    ensures Rids(a + b) == Rids(a) + Rids(b)
  {
  }

  /** A range answer lists the stored entries of the range, each as often as it is stored ... */
  lemma {:induction false} WithinCounts(es: seq<Entry>, lo: Key, hi: Key, e: Entry)
    ensures multiset(Within(es, lo, hi))[e] == if lo <= e.key <= hi then multiset(es)[e] else 0
  {
    if es != [] {
      WithinCounts(es[1..], lo, hi, e);
      assert es == [es[0]] + es[1..];
    }
  }

  lemma {:induction false} InRangeIsWithin(es: seq<Entry>, lo: Key, hi: Key)
    ensures InRange(es, lo, hi) == Rids(Within(es, lo, hi))
  {
    if es != [] {
      InRangeIsWithin(es[1..], lo, hi);
      var head: seq<Entry> := if lo <= es[0].key <= hi then [es[0]] else [];
      RidsAppend(head, Within(es[1..], lo, hi));
    }
  }

  /** ... smaller keys first. */
  lemma {:induction false} WithinSorted(es: seq<Entry>, lo: Key, hi: Key)
    requires KeySorted(es)
    ensures KeySorted(Within(es, lo, hi))
    ensures forall e :: e in Within(es, lo, hi) ==> e in es
  {
    if es != [] {
      var rest := Within(es[1..], lo, hi);
      WithinSorted(es[1..], lo, hi);
      forall i | 0 <= i < |rest|
        ensures es[0].key <= rest[i].key
      {
        assert rest[i] in es[1..];
      }
    }
  }

  /** A search returns each RID as often as it is stored under the key. */
  lemma {:induction false} MatchingCounts(es: seq<Entry>, key: Key, rid: RID)
    ensures multiset(Matching(es, key))[rid] == multiset(es)[Entry(key, rid)]
  {
    if es != [] {
      MatchingCounts(es[1..], key, rid);
      assert es == [es[0]] + es[1..];
    }
  }

  lemma {:induction false} WithoutSorted(es: seq<Entry>, key: Key, rid: Option<RID>)
    requires SortedEntries(es)
    ensures SortedEntries(Without(es, key, rid))
  {
    if es != [] {
      WithoutSorted(es[1..], key, rid);
      WithoutShrinks(es[1..], key, rid);
      var rest := Without(es[1..], key, rid);
      forall i | 0 <= i < |rest|
        ensures EntryLe(es[0], rest[i])
      {
        assert rest[i] in es[1..];
      }
    }
  }

  lemma {:induction false} WithoutFits(c: Codec, es: seq<Entry>, key: Key, rid: Option<RID>)
    ensures Total(LeafWeights(c, Without(es, key, rid))) <= Total(LeafWeights(c, es))
  {
    if es != [] {
      WithoutFits(c, es[1..], key, rid);
      var rest := Without(es[1..], key, rid);
      assert LeafWeights(c, es)[1..] == LeafWeights(c, es[1..]);
      assert LeafWeights(c, [es[0]] + rest)[1..] == LeafWeights(c, rest);
    }
  }

  // ----- sorting one more entry into a leaf -----

  function InsertSortedEntry(es: seq<Entry>, e: Entry): seq<Entry> {
    if es == [] || EntryLe(es[|es| - 1], e) then es + [e]
    else InsertSortedEntry(es[..|es| - 1], e) + [es[|es| - 1]]
  }

  /** The stable sort of a list by (key, page, slot). */
  function StableSort(es: seq<Entry>): seq<Entry> {
    if es == [] then [] else InsertSortedEntry(StableSort(es[..|es| - 1]), es[|es| - 1])
  }

  lemma {:induction false} SortOfSorted(es: seq<Entry>)
    requires SortedEntries(es)
    ensures StableSort(es) == es
  {
    if |es| > 0 {
      SortOfSorted(es[..|es| - 1]);
      assert |es| > 1 ==> EntryLe(es[|es| - 2], es[|es| - 1]);
      assert es == es[..|es| - 1] + [es[|es| - 1]];
    }
  }

  lemma {:induction false} InsertPlace(es: seq<Entry>, e: Entry) returns (i: nat)
    requires SortedEntries(es)
    ensures i <= |es| && InsertSortedEntry(es, e) == InsertAt(es, i, e)
    ensures SortedEntries(InsertAt(es, i, e))
  {
    if es == [] || EntryLe(es[|es| - 1], e) {
      i := |es|;
      forall a | 0 <= a < |es|
        ensures EntryLe(es[a], e)
      {
        assert a < |es| - 1 ==> EntryLe(es[a], es[|es| - 1]);
      }
    } else {
      var init, last := es[..|es| - 1], es[|es| - 1];
      i := InsertPlace(init, e);
      assert InsertAt(es, i, e) == InsertAt(init, i, e) + [last];
      forall a | 0 <= a < |InsertAt(init, i, e)|
        ensures EntryLe(InsertAt(init, i, e)[a], last)
      {
        assert InsertAt(init, i, e)[a] == if a < i then es[a] else if a == i then e else es[a - 1];
      }
    }
  }

  // ----- rewriting one leaf -----

  /** The pages with leaf id holding exactly these entries. */
  function WithEntries(P: Pages, id: nat, es: seq<Entry>): Pages
    requires id in P && P[id].LeafPage?
  {
    P[id := LeafPage(P[id].parent, P[id].next, es)]
  }

  /** Internal pages, and the links of every page, do not depend on what one leaf holds. */
  lemma ReplaceKeepsKids(c: Codec, P: Pages, s: Shape, root: nat, id: nat, es: seq<Entry>)
    requires Inv(c, P, s, root, {}) && id in s.level && s.level[id] == 0
    ensures KidsOk(WithEntries(P, id, es), s)
  {
    hide SizesOk, BoundsOk, LinksOk, ChainOk;
    var Q := WithEntries(P, id, es);
    forall h | 1 <= h < |s.levels|
      ensures Flat(ChildrenOf(Q), s.levels[h]) == s.levels[h - 1]
    {
      assert Flat(ChildrenOf(P), s.levels[h]) == s.levels[h - 1];
      FlatFrame(ChildrenOf(P), ChildrenOf(Q), s.levels[h]);
    }
  }

  lemma ReplaceKeepsLinks(c: Codec, P: Pages, s: Shape, root: nat, id: nat, es: seq<Entry>)
    requires Inv(c, P, s, root, {}) && id in s.level && s.level[id] == 0
    ensures LinksOk(WithEntries(P, id, es), s, root)
  {
    hide SizesOk, BoundsOk, KidsOk, ChainOk;
    var Q := WithEntries(P, id, es);
    forall x, j | x in s.level && 0 <= j < |Children(Q, x)|
      ensures ChildLinked(Q, s, x, Children(Q, x)[j])
    {
      assert ChildLinked(P, s, x, Children(P, x)[j]);
    }
    forall x | x in s.level && x != root
      ensures ParentLinked(Q, s, x)
    {
      assert ParentLinked(P, s, x);
    }
  }

  lemma ReplaceKeepsChain(c: Codec, P: Pages, s: Shape, root: nat, id: nat, es: seq<Entry>)
    requires Inv(c, P, s, root, {}) && id in s.level && s.level[id] == 0
    ensures ChainOk(WithEntries(P, id, es), s)
  {
    hide SizesOk, BoundsOk, KidsOk, LinksOk;
    var Q := WithEntries(P, id, es);
    forall i | 0 <= i < |s.levels[0]|
      ensures LeafLinked(Q, s, i)
    {
      assert LeafLinked(P, s, i);
    }
  }

  lemma ReplaceLeaf(c: Codec, P: Pages, s: Shape, root: nat, id: nat, es: seq<Entry>)
    requires Inv(c, P, s, root, {}) && id in s.level && s.level[id] == 0
    requires SortedEntries(es)
    requires forall e :: e in es ==> FitsAlone(c, e.key) && Le(s.lo[id], Fin(e.key)) && Le(Fin(e.key), s.hi[id])
    ensures Inv(c, WithEntries(P, id, es), s, root, {id})
  {
    hide LinksOk, KidsOk, SizesOk, ChainOk;
    ReplaceKeepsKids(c, P, s, root, id, es);
    ReplaceKeepsLinks(c, P, s, root, id, es);
    ReplaceKeepsChain(c, P, s, root, id, es);
    ReplaceKeepsSizes(c, P, s, root, id, es);
    ReplaceKeepsBounds(c, P, s, root, id, es);
  }

  lemma ReplaceKeepsSizes(c: Codec, P: Pages, s: Shape, root: nat, id: nat, es: seq<Entry>)
    requires Inv(c, P, s, root, {}) && id in s.level && s.level[id] == 0
    requires forall e :: e in es ==> FitsAlone(c, e.key)
    ensures SizesOk(c, WithEntries(P, id, es), s, {id})
  {
    hide LevelsOk, LinksOk, KidsOk, BoundsOk, ChainOk;
    var Q := WithEntries(P, id, es);
    forall x | x in s.level && x in Q && x !in {id}
      ensures NodeFits(c, Q[x])
    {
      assert NodeFits(c, P[x]);
    }
    forall x | x in s.level && x in Q
      ensures KeysFitAlone(c, Q[x])
    {
      assert x != id ==> KeysFitAlone(c, P[x]);
    }
  }

  lemma ReplaceKeepsBounds(c: Codec, P: Pages, s: Shape, root: nat, id: nat, es: seq<Entry>)
    requires Inv(c, P, s, root, {}) && id in s.level && s.level[id] == 0
    requires SortedEntries(es)
    requires forall e :: e in es ==> Le(s.lo[id], Fin(e.key)) && Le(Fin(e.key), s.hi[id])
    ensures KindsOk(WithEntries(P, id, es), s) && BoundsOk(WithEntries(P, id, es), s, root)
  {
    hide LinksOk, KidsOk, SizesOk, ChainOk;
    var Q := WithEntries(P, id, es);
    forall x | x in s.level && s.level[x] == 0
      ensures LeafBounds(Q, s, x)
    {
      assert x != id ==> LeafBounds(P, s, x);
    }
    forall x | x in s.level && s.level[x] > 0
      ensures NodeBounds(Q, s, x)
    {
      assert NodeBounds(P, s, x);
    }
  }

  /** A node exempt from the size rule that meets it needs no exemption. */
  lemma DropExemption(c: Codec, P: Pages, s: Shape, root: nat, id: nat)
    requires Inv(c, P, s, root, {id}) && (id in P ==> NodeFits(c, P[id]))
    ensures Inv(c, P, s, root, {})
  {
    hide LevelsOk, KindsOk, LinksOk, KidsOk, BoundsOk, ChainOk;
    forall x | x in s.level && x in P && x !in {}
      ensures NodeFits(c, P[x])
    {
    }
  }

  lemma EntriesAround(P: Pages, Q: Pages, ids: seq<nat>, i: nat)
    requires NoDup(ids) && i < |ids|
    requires forall x :: x in ids && x != ids[i] ==> Entries(P, x) == Entries(Q, x)
    ensures AllEntries(P, ids) == AllEntries(P, ids[..i]) + Entries(P, ids[i]) + AllEntries(P, ids[i + 1..])
    ensures AllEntries(Q, ids) == AllEntries(P, ids[..i]) + Entries(Q, ids[i]) + AllEntries(P, ids[i + 1..])
  {
    FlatAround(EntriesOf(P), ids, i);
    FlatAround(EntriesOf(Q), ids, i);
    FlatFrame(EntriesOf(P), EntriesOf(Q), ids[..i]);
    FlatFrame(EntriesOf(P), EntriesOf(Q), ids[i + 1..]);
  }

  /** Removing entries from a leaf keeps the whole invariant. */
  lemma ShrinkLeaf(c: Codec, P: Pages, s: Shape, root: nat, id: nat, key: Key, rid: Option<RID>)
    requires Inv(c, P, s, root, {}) && id in s.level && s.level[id] == 0
    ensures Inv(c, WithEntries(P, id, Without(Entries(P, id), key, rid)), s, root, {})
  {
    hide LinksOk, KidsOk, ChainOk;
    var es := Entries(P, id);
    var left := Without(es, key, rid);
    assert LeafBounds(P, s, id) && KeysFitAlone(c, P[id]) && NodeFits(c, P[id]);
    WithoutShrinks(es, key, rid);
    WithoutSorted(es, key, rid);
    WithoutFits(c, es, key, rid);
    forall e | e in left
      ensures FitsAlone(c, e.key) && Le(s.lo[id], Fin(e.key)) && Le(Fin(e.key), s.hi[id]) && RidInRange(e.rid)
    {
      assert e in es;
    }
    ReplaceLeaf(c, P, s, root, id, left);
    DropExemption(c, WithEntries(P, id, left), s, root, id);
  }

  // ----- walking the chain while removing -----

  /** The first i leaves have been dealt with, the others are as they were. */
  ghost predicate Walked(P0: Pages, P: Pages, L: seq<nat>, i: nat, key: Key, rid: Option<RID>)
    requires i <= |L|
  {
    && AllEntries(P, L[..i]) == Without(AllEntries(P0, L[..i]), key, rid)
    && forall j :: i <= j < |L| ==> Entries(P, L[j]) == Entries(P0, L[j])
  }

  lemma WalkStep(P0: Pages, P: Pages, Q: Pages, L: seq<nat>, i: nat, key: Key, rid: Option<RID>)
    requires i < |L| && NoDup(L) && Walked(P0, P, L, i, key, rid)
    requires rid.Some? ==> Without(AllEntries(P0, L[..i]), key, rid) == AllEntries(P0, L[..i])
    requires Entries(Q, L[i]) == Without(Entries(P0, L[i]), key, rid)
    requires forall x :: x != L[i] ==> Entries(Q, x) == Entries(P, x)
    ensures Walked(P0, Q, L, i + 1, key, rid)
    ensures AllEntries(Q, L[..i + 1]) == AllEntries(P, L[..i]) + Entries(Q, L[i])
    ensures AllEntries(P0, L[..i + 1]) == AllEntries(P0, L[..i]) + Entries(P0, L[i])
  {
    FlatFrame(EntriesOf(P), EntriesOf(Q), L[..i]);
    PrefixStep(Q, L, i);
    PrefixStep(P0, L, i);
    WithoutAppend(AllEntries(P0, L[..i]), Entries(P0, L[i]), key, rid);
  }

  predicate ReachesPast(es: seq<Entry>, key: Key) {
    exists i :: 0 <= i < |es| && es[i].key > key
  }

  /** What a removal does that sifts entries a to b and leaves all others alone. */
  ghost predicate Sifted(es: seq<Entry>, es': seq<Entry>, a: nat, b: nat, key: Key, rid: Option<RID>) {
    && a <= b <= |es|
    && es' == es[..a] + Without(es[a..b], key, rid) + es[b..]
  }

  /** It goes on to the last entry, to a larger key, or to the one entry it was to remove. */
  ghost predicate SiftEnds(es: seq<Entry>, a: nat, b: nat, key: Key, rid: Option<RID>)
    requires a <= b <= |es|
  {
    || b == |es|
    || ReachesPast(es[a..b], key)
    || (rid.Some? && Without(es[a..b], key, rid) != es[a..b])
  }

  /** A removal that starts at entry a. */
  ghost predicate SiftedFrom(es: seq<Entry>, es': seq<Entry>, a: nat, key: Key, rid: Option<RID>) {
    exists b: nat :: Sifted(es, es', a, b, key, rid) && SiftEnds(es, a, b, key, rid)
  }

  /** On ascending entries that is the removal from all of them. */
  lemma SiftIsAll(es: seq<Entry>, es': seq<Entry>, a: nat, b: nat, key: Key, rid: Option<RID>)
    requires KeySorted(es) && Sifted(es, es', a, b, key, rid) && SiftEnds(es, a, b, key, rid)
    requires forall e :: e in es[..a] ==> e.key < key
    ensures es' == Without(es, key, rid)
  {
    hide Without, ReachesPast, KeySorted;
    assert es == es[..a] + (es[a..b] + es[b..]);
    SiftParts(es[..a], es[a..b], es[b..], key, rid);
  }

  lemma SiftParts(x: seq<Entry>, y: seq<Entry>, z: seq<Entry>, key: Key, rid: Option<RID>)
    requires KeySorted(x + (y + z)) && forall e :: e in x ==> e.key < key
    requires z == [] || ReachesPast(y, key) || (rid.Some? && Without(y, key, rid) != y)
    ensures Without(x + (y + z), key, rid) == x + Without(y, key, rid) + z
  {
    WithoutNone(x, key, rid);
    WithoutAppend(x, y + z, key, rid);
    WithoutAppend(y, z, key, rid);
    if !(rid.Some? && Without(y, key, rid) != y) {
      if z != [] {
        LargerAfter(x, y, z, key);
      }
      WithoutNone(z, key, rid);
    }
    assert x + (Without(y, key, rid) + z) == x + Without(y, key, rid) + z;
  }

  /** Once the walk has reached past the key, so has everything after it. */
  lemma LargerAfter(x: seq<Entry>, y: seq<Entry>, z: seq<Entry>, key: Key)
    requires KeySorted(x + (y + z)) && ReachesPast(y, key)
    ensures forall e :: e in z ==> e.key > key
  {
    var all := x + (y + z);
    var i :| 0 <= i < |y| && y[i].key > key;
    forall e | e in z
      ensures e.key > key
    {
      var k :| 0 <= k < |z| && z[k] == e;
      assert all[|x| + i] == y[i] && all[|x| + |y| + k] == e;
    }
  }

  /** The walk from the pages P0 to P along L, done with the first i leaves. */
  lemma SiftedSoFar(pre: seq<Entry>, P0: Pages, P: Pages, L: seq<nat>, i: nat, key: Key, rid: Option<RID>)
    requires i <= |L| && Walked(P0, P, L, i, key, rid)
    ensures Sifted(pre + AllEntries(P0, L), pre + AllEntries(P, L), |pre|, |pre| + |AllEntries(P0, L[..i])|, key, rid)
    ensures (pre + AllEntries(P0, L))[|pre|..|pre| + |AllEntries(P0, L[..i])|] == AllEntries(P0, L[..i])
    ensures i == |L| ==> |AllEntries(P0, L[..i])| == |AllEntries(P0, L)|
  {
    assert L == L[..i] + L[i..];
    FlatAppend(EntriesOf(P), L[..i], L[i..]);
    FlatAppend(EntriesOf(P0), L[..i], L[i..]);
    FlatFrame(EntriesOf(P0), EntriesOf(P), L[i..]);
    hide Flat, Without;
    SiftedMiddle(pre, AllEntries(P0, L[..i]), AllEntries(P0, L[i..]), key, rid);
    if i == |L| {
      assert L[..i] == L;
    }
  }

  lemma SiftedMiddle(pre: seq<Entry>, a: seq<Entry>, z: seq<Entry>, key: Key, rid: Option<RID>)
    ensures Sifted(pre + (a + z), pre + (Without(a, key, rid) + z), |pre|, |pre| + |a|, key, rid)
    ensures (pre + (a + z))[|pre|..|pre| + |a|] == a
  {
    hide Without;
    var es := pre + (a + z);
    assert es[..|pre|] == pre && es[|pre|..|pre| + |a|] == a && es[|pre| + |a|..] == z;
    assert pre + (Without(a, key, rid) + z) == pre + Without(a, key, rid) + z;
  }

  /** The entries that went in the first i leaves are all that went. */
  lemma RestLength(P0: Pages, P: Pages, L: seq<nat>, i: nat, key: Key, rid: Option<RID>)
    requires i <= |L| && Walked(P0, P, L, i, key, rid)
    ensures |AllEntries(P0, L)| - |AllEntries(P, L)| == |AllEntries(P0, L[..i])| - |AllEntries(P, L[..i])|
  {
    assert L == L[..i] + L[i..];
    FlatAppend(EntriesOf(P), L[..i], L[i..]);
    FlatAppend(EntriesOf(P0), L[..i], L[i..]);
    FlatFrame(EntriesOf(P0), EntriesOf(P), L[i..]);
  }

  lemma PrefixStep(P: Pages, L: seq<nat>, i: nat)
    requires i < |L|
    ensures AllEntries(P, L[..i + 1]) == AllEntries(P, L[..i]) + Entries(P, L[i])
  {
    assert L[..i + 1] == L[..i] + [L[i]];
    FlatAppend(EntriesOf(P), L[..i], [L[i]]);
    assert Flat(EntriesOf(P), [L[i]]) == Entries(P, L[i]);
  }

  /** The removal in leaf i: how much goes, and when a larger key has been met. */
  lemma WalkLeaf(P0: Pages, P: Pages, Q: Pages, L: seq<nat>, i: nat, key: Key, rid: Option<RID>)
    requires i < |L| && NoDup(L) && Walked(P0, P, L, i, key, rid)
    requires rid.Some? ==> |AllEntries(P, L)| == |AllEntries(P0, L)|
    requires Entries(Q, L[i]) == Without(Entries(P, L[i]), key, rid)
    requires forall x :: x != L[i] ==> Entries(Q, x) == Entries(P, x)
    ensures Walked(P0, Q, L, i + 1, key, rid)
    ensures |AllEntries(P, L)| - |AllEntries(Q, L)| == |Entries(P, L[i])| - |Entries(Q, L[i])|
    ensures rid.Some? && Entries(Q, L[i]) != Entries(P, L[i]) ==>
              Without(AllEntries(P0, L[..i + 1]), key, rid) != AllEntries(P0, L[..i + 1])
    ensures ReachesPast(Entries(P, L[i]), key) ==> ReachesPast(AllEntries(P0, L[..i + 1]), key)
  {
    RestLength(P0, P, L, i, key, rid);
    WithoutShrinks(AllEntries(P0, L[..i]), key, rid);
    WalkStep(P0, P, Q, L, i, key, rid);
    RestLength(P0, Q, L, i + 1, key, rid);
    WithoutShrinks(Entries(P, L[i]), key, rid);
    WithoutShrinks(AllEntries(P0, L[..i + 1]), key, rid);
    if ReachesPast(Entries(P, L[i]), key) {
      var k :| 0 <= k < |Entries(P, L[i])| && Entries(P, L[i])[k].key > key;
      var all: seq<Entry> := AllEntries(P0, L[..i + 1]);
      assert all[|AllEntries(P0, L[..i])| + k] == Entries(P, L[i])[k];
    }
  }

  // ----- a new root above the old one -----

  function SetParent(page: Page, p: nat): Page {
    match page
    case LeafPage(_, next, entries) => LeafPage(Some(p), next, entries)
    case InternalPage(_, keys, children) => InternalPage(Some(p), keys, children)
  }

  /** The tree below a new root g that has a single child and no separator yet. */
  function GrownPages(P: Pages, root: nat, g: nat): Pages
    requires root in P
  {
    P[root := SetParent(P[root], g)][g := InternalPage(None, [], [root])]
  }

  ghost function GrownShape(s: Shape, g: nat): Shape {
    Shape(s.levels + [[g]], s.level[g := |s.levels|], s.lo[g := NegInf], s.hi[g := PosInf])
  }

  lemma GrowKeepsInv(c: Codec, P: Pages, s: Shape, root: nat, g: nat)
    requires Inv(c, P, s, root, {root}) && g !in P && g != 0
    ensures Inv(c, GrownPages(P, root, g), GrownShape(s, g), g, {root, g})
  {
    hide LinksOk, KidsOk, SizesOk, BoundsOk, ChainOk;
    assert s.levels[|s.levels| - 1][0] == root;
    GrowLevels(c, P, s, root, g);
    GrowKids(c, P, s, root, g);
    GrowLinks(c, P, s, root, g);
    GrowBounds(c, P, s, root, g);
    GrowSizes(c, P, s, root, g);
    GrowChain(c, P, s, root, g);
  }

  lemma GrowKids(c: Codec, P: Pages, s: Shape, root: nat, g: nat)
    requires Inv(c, P, s, root, {root}) && g !in P && g != 0
    ensures KidsOk(GrownPages(P, root, g), GrownShape(s, g))
  {
    hide SizesOk, BoundsOk, ChainOk;
    var Q, t := GrownPages(P, root, g), GrownShape(s, g);
    forall h | 1 <= h < |t.levels|
      ensures Flat(ChildrenOf(Q), t.levels[h]) == t.levels[h - 1]
    {
      if h < |s.levels| {
        assert Flat(ChildrenOf(P), s.levels[h]) == s.levels[h - 1];
        FlatFrame(ChildrenOf(P), ChildrenOf(Q), s.levels[h]);
      } else {
        assert Flat(ChildrenOf(Q), [g]) == [root];
      }
    }
  }

  lemma GrowSizes(c: Codec, P: Pages, s: Shape, root: nat, g: nat)
    requires Inv(c, P, s, root, {root}) && g !in P && g != 0
    ensures SizesOk(c, GrownPages(P, root, g), GrownShape(s, g), {root, g})
  {
    hide LevelsOk, KidsOk, BoundsOk, ChainOk;
    var Q, t := GrownPages(P, root, g), GrownShape(s, g);
    forall x | x in t.level && x in Q && x !in {root, g}
      ensures NodeFits(c, Q[x])
    {
      assert NodeFits(c, P[x]);
    }
    forall x | x in t.level && x in Q
      ensures KeysFitAlone(c, Q[x])
    {
      assert x in P ==> KeysFitAlone(c, P[x]);
    }
  }

  lemma GrowChain(c: Codec, P: Pages, s: Shape, root: nat, g: nat)
    requires Inv(c, P, s, root, {root}) && g !in P && g != 0
    ensures ChainOk(GrownPages(P, root, g), GrownShape(s, g))
  {
    hide KidsOk, SizesOk, BoundsOk;
    var Q, t := GrownPages(P, root, g), GrownShape(s, g);
    forall i | 0 <= i < |t.levels[0]|
      ensures LeafLinked(Q, t, i)
    {
      assert LeafLinked(P, s, i);
    }
  }

  lemma GrowLevels(c: Codec, P: Pages, s: Shape, root: nat, g: nat)
    requires Inv(c, P, s, root, {root}) && g !in P && g != 0
    ensures LevelsOk(GrownShape(s, g), g)
  {
    hide LinksOk, KidsOk, SizesOk, BoundsOk, ChainOk;
    var t := GrownShape(s, g);
    assert g !in s.level;
    forall x | x in t.level
      ensures OnLevel(t, x)
    {
      if x != g {
        assert OnLevel(s, x);
      }
    }
    forall h | 0 <= h < |t.levels|
      ensures NoDup(t.levels[h])
    {
      assert h < |s.levels| ==> NoDup(s.levels[h]);
    }
  }

  lemma GrowLinks(c: Codec, P: Pages, s: Shape, root: nat, g: nat)
    requires Inv(c, P, s, root, {root}) && g !in P && g != 0
    requires root in s.level && s.level[root] == |s.levels| - 1
    ensures LinksOk(GrownPages(P, root, g), GrownShape(s, g), g)
  {
    hide LevelsOk, KidsOk, SizesOk, BoundsOk, ChainOk;
    var Q, t := GrownPages(P, root, g), GrownShape(s, g);
    forall x, j | x in t.level && 0 <= j < |Children(Q, x)|
      ensures ChildLinked(Q, t, x, Children(Q, x)[j])
    {
      if x != g {
        assert ChildLinked(P, s, x, Children(P, x)[j]);
      }
    }
    forall x | x in t.level && x != g
      ensures ParentLinked(Q, t, x)
    {
      if x != root {
        assert ParentLinked(P, s, x);
      } else {
        assert Children(Q, g)[0] == root;
      }
    }
  }

  lemma GrowBounds(c: Codec, P: Pages, s: Shape, root: nat, g: nat)
    requires Inv(c, P, s, root, {root}) && g !in P && g != 0
    requires root in s.level && s.level[root] == |s.levels| - 1
    ensures KindsOk(GrownPages(P, root, g), GrownShape(s, g))
    ensures BoundsOk(GrownPages(P, root, g), GrownShape(s, g), g)
  {
    hide LinksOk, KidsOk, SizesOk, ChainOk;
    var Q, t := GrownPages(P, root, g), GrownShape(s, g);
    forall x | x in t.level && t.level[x] == 0
      ensures LeafBounds(Q, t, x)
    {
      assert LeafBounds(P, s, x);
    }
    forall x | x in t.level && t.level[x] > 0
      ensures NodeBounds(Q, t, x)
    {
      if x != g {
        assert NodeBounds(P, s, x);
        forall j | 0 <= j < |Q[x].children|
          ensures ChildBounds(t, x, Q[x].keys, Q[x].children[j], j)
        {
          assert ChildBounds(s, x, P[x].keys, P[x].children[j], j);
        }
      } else {
        assert ChildBounds(t, g, [], root, 0);
      }
    }
    forall x | x in t.level
      ensures IntervalOk(t, x)
    {
      assert x != g ==> IntervalOk(s, x);
    }
  }

  lemma GrowKeepsEntries(P: Pages, s: Shape, root: nat, g: nat)
    requires root in P && g !in P && |s.levels| > 0 && forall x :: x in s.levels[0] ==> x in P
    ensures AllEntries(GrownPages(P, root, g), GrownShape(s, g).levels[0]) == AllEntries(P, s.levels[0])
  {
    FlatFrame(EntriesOf(P), EntriesOf(GrownPages(P, root, g)), s.levels[0]);
  }
}
