/** The persistent non-clustered B+ tree (engine/indexes/bplus_tree.py). */
module BPlusTreeIndex {
  import opened Common
  import opened BPlusPages
  import opened BPlusInvariant
  import opened BPlusSplit
  import opened BPlusLemmas
  import opened BPlusSteps
  import opened BPlusPrune
  import opened BPlusChain
  import opened BPlusCascade
  import opened BPlusMoves

  /** The end of an insert: done, or one of the two errors "cannot be split into valid pages". */
  datatype Outcome = Inserted | LeafNotSplittable | InternalNotSplittable

  class BPlusTree {
    const codec: Codec
    var metadata: Metadata
    var pages: Pages
    var pageCount: nat
    var root: nat
    var firstLeaf: nat
    /** The nodes a descent can reach: by height from left to right, each with its interval. */
    ghost var shape: Shape
    /** Their pages, every leaf pointing at the next leaf that can be reached. */
    ghost var linked: Pages
    /** Leaves of the chain that no node leads to, by the leaf they stand behind. */
    ghost var behind: Behind

    /** Pages are numbered without gaps, page 0 is the metadata page, all others are nodes. */
    ghost predicate Stored()
      reads this
    {
      && metadata == Metadata(root, firstLeaf) && Numbered(pages, pageCount)
      && View(pages, linked, shape, behind) && StartsWith(shape, firstLeaf)
    }

    ghost predicate Valid()
      reads this
    {
      Stored() && Inv(codec, linked, shape, root, {})
    }

    /** The leaf pages along the chain. */
    ghost function Leaves(): seq<nat>
      reads this`shape, this`behind
    {
      if |shape.levels| == 0 then [] else Chain(behind, shape.levels[0])
    }

    /** The stored entries, from the first leaf along the chain. */
    ghost function Contents(): seq<Entry>
      reads this
    {
      AllEntries(pages, Leaves())
    }

    /** Searching finds everything: the keys ascend along the chain, each leaf within its separators. */
    ghost predicate Ordered()
      reads this
    {
      OrderedChain(pages, shape, behind)
    }

    /** Every leaf of the chain can be reached from the root. */
    ghost predicate AllReached()
      reads this
    {
      NothingBehind(shape, behind)
    }

    lemma ReachedIs()
      ensures AllReached() <==> NothingBehind(shape, behind)
    {
    }

    /** No key or separator that can be reached is too large for the half-page rule. */
    ghost predicate AllHalf()
      reads this
    {
      AllHalfPages(codec, linked)
    }

    /** An insert of `parent` is pending: seen with its new child, the tree is valid but for its size. */
    ghost predicate Pending(parent: nat, left: nat, sep: Key, right: nat)
      reads this
    {
      Stored() && Open(codec, linked, shape, root, parent, left, sep, right)
    }

    constructor (codec: Codec)
      requires codec.pageSize >= HEADER_SIZE
      ensures Valid() && Contents() == [] && AllHalf() && Ordered() && AllReached()
      ensures this.codec == codec
      ensures pages == map[1 := LeafPage(None, None, [])] && root == 1 && firstLeaf == 1 && pageCount == 2
    {
      this.codec := codec;
      metadata := Metadata(1, 1);
      pages := map[1 := LeafPage(None, None, [])];
      pageCount := 2;
      root := 1;
      firstLeaf := 1;
      shape := Shape([[1]], map[1 := 0], map[1 := NegInf], map[1 := PosInf]);
      linked := map[1 := LeafPage(None, None, [])];
      behind := map[];
      new;
      EmptyTree(codec);
    }

    static lemma EmptyTree(c: Codec)
      requires c.pageSize >= HEADER_SIZE
      ensures var P := map[1 := LeafPage(None, None, [])];
              var s := Shape([[1]], map[1 := 0], map[1 := NegInf], map[1 := PosInf]);
              && Inv(c, P, s, 1, {}) && AllEntries(P, Chain(map[], s.levels[0])) == [] && AllHalfPages(c, P)
              && View(P, P, s, map[]) && OrderedChain(P, s, map[]) && NothingBehind(s, map[])
    {
      EmptyShape(c);
      EmptyChain();
    }

    static lemma EmptyShape(c: Codec)
      requires c.pageSize >= HEADER_SIZE
      ensures var P := map[1 := LeafPage(None, None, [])];
              var s := Shape([[1]], map[1 := 0], map[1 := NegInf], map[1 := PosInf]);
              Inv(c, P, s, 1, {}) && AllHalfPages(c, P)
    {
      var P := map[1 := LeafPage(None, None, [])];
      var s := Shape([[1]], map[1 := 0], map[1 := NegInf], map[1 := PosInf]);
      assert s.levels[0][0] == 1;
      assert LevelsOk(s, 1) && KindsOk(P, s) && LinksOk(P, s, 1) && KidsOk(P, s);
      assert LeafLinked(P, s, 0);
      assert ChainOk(P, s);
      assert Entries(P, 1) == [];
      assert LeafBounds(P, s, 1) && IntervalOk(s, 1);
      assert BoundsOk(P, s, 1);
      assert LeafWeights(c, []) == [];
      assert SizesOk(c, P, s, {});
    }

    static lemma EmptyChain()
      ensures var P := map[1 := LeafPage(None, None, [])];
              var s := Shape([[1]], map[1 := 0], map[1 := NegInf], map[1 := PosInf]);
              && AllEntries(P, Chain(map[], s.levels[0])) == [] && View(P, P, s, map[])
              && OrderedChain(P, s, map[]) && NothingBehind(s, map[])
    {
      var P := map[1 := LeafPage(None, None, [])];
      var s := Shape([[1]], map[1 := 0], map[1 := NegInf], map[1 := PosInf]);
      ChainOne(map[], 1);
      EntriesOne(P, 1);
      NoEntries(P);
      assert NextOk(P, [1], 0) && SameNode(P[1], P[1]);
      assert SegmentOk(P, s, map[], 1);
    }

    // ----- descent -----

    /** A reachable page and what is known of it. */
    lemma Reached(id: nat)
      requires Valid() && id in shape.level
      ensures id in linked && id in pages && pages[id].parent == linked[id].parent
      ensures shape.level[id] == 0 <==> pages[id].LeafPage?
      ensures shape.level[id] > 0 ==> pages[id] == linked[id] && |pages[id].children| == |pages[id].keys| + 1
      ensures shape.level[id] == 0 ==> linked[id].LeafPage? && pages[id].entries == linked[id].entries
    {
      hide LevelsOk, LinksOk, KidsOk, SizesOk, BoundsOk, ChainOk, Linked;
      assert SameNode(pages[id], linked[id]);
    }

    method FindLeafPageId(key: Key, leftBias: bool) returns (pageId: nat)
      requires Valid()
      ensures pageId in shape.level && shape.level[pageId] == 0
      ensures pageId in shape.lo && pageId in shape.hi
      ensures leftBias ==> StartsBelow(shape.lo[pageId], key)
      ensures leftBias ==> pageId == StartLeaf(pages, shape.level, root, key)
      ensures !leftBias ==> Takes(shape.lo[pageId], shape.hi[pageId], key)
      ensures !leftBias ==> pageId == HomeLeaf(pages, shape.level, root, key)
    {
      pageId := root;
      RootReached();
      Reached(root);
      while pages[pageId].InternalPage?
        invariant pageId in shape.level && pageId in pages && shape.lo.Keys == shape.level.Keys && shape.hi.Keys == shape.level.Keys
        invariant shape.level[pageId] == 0 <==> pages[pageId].LeafPage?
        invariant leftBias ==> StartLeaf(pages, shape.level, pageId, key) == StartLeaf(pages, shape.level, root, key)
        invariant !leftBias ==> HomeLeaf(pages, shape.level, pageId, key) == HomeLeaf(pages, shape.level, root, key)
        invariant leftBias ==> StartsBelow(shape.lo[pageId], key)
        invariant !leftBias ==> Takes(shape.lo[pageId], shape.hi[pageId], key)
        decreases shape.level[pageId]
      {
        hide Inv, View;
        var node := pages[pageId];
        Reached(pageId);
        if leftBias {
          DescendLeft(codec, linked, shape, root, {}, pageId, key);
          pageId := node.children[BisectLeft(node.keys, key)];
        } else {
          DescendRight(codec, linked, shape, root, pageId, key);
          pageId := node.children[BisectRight(node.keys, key)];
        }
        Reached(pageId);
      }
    }

    lemma RootReached()
      requires Valid()
      ensures root in shape.level && shape.lo.Keys == shape.level.Keys && shape.hi.Keys == shape.level.Keys
      ensures shape.lo[root] == NegInf && shape.hi[root] == PosInf
    {
      hide KindsOk, LinksOk, KidsOk, SizesOk, ChainOk, View;
    }

    /** Where the chain walk of a search starts. */
    ghost predicate StartsAt(m: nat, key: Key)
      reads this
    {
      m < |Leaves()| && Leaves()[m] in shape.level && Leaves()[m] == StartLeaf(pages, shape.level, root, key)
    }

    /** What stands before leaf m. */
    ghost function Before(m: nat): seq<Entry>
      reads this
    {
      if m <= |Leaves()| then AllEntries(pages, Leaves()[..m]) else []
    }

    /** In an ordered chain nothing before the start of a search can match. */
    method FirstLeafFor(key: Key) returns (pageId: nat, ghost m: nat)
      requires Valid()
      ensures StartsAt(m, key) && At(m, 0) == Some(pageId) && m <= |Leaves()|
      ensures Contents() == Before(m) + AllEntries(pages, Leaves()[m..])
      ensures Ordered() ==> forall e :: e in Before(m) ==> e.key < key
    {
      hide *;
      pageId := FindLeafPageId(key, true);
      m := PlaceOnChain(pageId, key);
    }

    lemma PlaceOnChain(x: nat, key: Key) returns (m: nat)
      requires Valid() && x in shape.level && shape.level[x] == 0 && x in shape.lo && StartsBelow(shape.lo[x], key)
      requires x == StartLeaf(pages, shape.level, root, key)
      ensures m <= |Leaves()| && StartsAt(m, key) && At(m, 0) == Some(x)
      ensures Contents() == Before(m) + AllEntries(pages, Leaves()[m..])
      ensures Ordered() ==> forall e :: e in Before(m) ==> e.key < key
    {
      LeafInTree(codec, linked, shape, root, x);
      hide Inv, Flat, AllEntries, StartLeaf;
      var i := IndexOf(shape.levels[0], x);
      ChainAround(behind, shape.levels[0], i);
      m := |Chain(behind, shape.levels[0][..i])|;
      assert Leaves()[..m] == Chain(behind, shape.levels[0][..i]);
      assert Leaves() == Leaves()[..m] + Leaves()[m..];
      EntriesAppend(pages, Leaves()[..m], Leaves()[m..]);
      if Ordered() {
        ShowsSame(pages, linked);
        ChainKeysBefore(codec, pages, linked, shape, root, {}, behind, i);
      }
    }

    lemma OrderedAscends()
      requires Valid() && Ordered()
      ensures KeySorted(Contents())
    {
      hide Inv, Flat, AllEntries;
      ShowsSame(pages, linked);
      OrderedIsSorted(codec, pages, linked, shape, root, {}, behind);
    }

    /** Leaf i of the chain, and where it points. */
    lemma OnChain(i: nat)
      requires Valid() && i < |Leaves()|
      ensures Leaves()[i] in pages && pages[Leaves()[i]].LeafPage?
      ensures pages[Leaves()[i]].next == if i + 1 < |Leaves()| then Some(Leaves()[i + 1]) else None
      ensures NoDup(Leaves())
    {
      assert NextOk(pages, Leaves(), i);
    }

    /** The page i leaves on from leaf m. */
    ghost function At(m: nat, i: nat): Option<nat>
      reads this`shape, this`behind
    {
      if m + i < |Leaves()| then Some(Leaves()[m + i]) else None
    }

    lemma NextLeaf(m: nat, i: nat)
      requires Valid() && At(m, i).Some?
      ensures At(m, i).value in Leaves() && At(m, i).value in pages && pages[At(m, i).value].LeafPage?
      ensures pages[At(m, i).value].next == At(m, i + 1) && m + i < |Leaves()|
    {
      OnChain(m + i);
    }

    // ----- queries -----

    /** What a walk from leaf m on answers with after i leaves, none of which reached past hi. */
    ghost predicate SoFar(m: nat, i: nat, lo: Key, hi: Key, result: seq<RID>)
      reads this
    {
      && m + i <= |Leaves()|
      && result == InRange(AllEntries(pages, Leaves()[m..][..i]), lo, hi)
      && forall e :: e in AllEntries(pages, Leaves()[m..][..i]) ==> e.key <= hi
    }

    lemma NothingRead(m: nat, lo: Key, hi: Key)
      requires m <= |Leaves()|
      ensures SoFar(m, 0, lo, hi, [])
    {
      NoEntries(pages);
      assert Leaves()[m..][..0] == [];
    }

    /** One leaf more. */
    lemma LeafRead(m: nat, i: nat, lo: Key, hi: Key, result: seq<RID>, es: seq<Entry>)
      requires SoFar(m, i, lo, hi, result) && At(m, i).Some? && es == Entries(pages, At(m, i).value)
      requires forall e :: e in es ==> e.key <= hi
      ensures SoFar(m, i + 1, lo, hi, result + InRange(es, lo, hi))
    {
      var L := Leaves()[m..];
      hide Flat, AllEntries, InRange, Chain;
      assert L[i] == At(m, i).value;
      RangeLeaf(pages, L, i, lo, hi);
      PrefixStep(pages, L, i);
    }

    /** The walk ends in a leaf that reaches past hi ... */
    lemma ReadsPast(m: nat, i: nat, lo: Key, hi: Key, result: seq<RID>, es: seq<Entry>, j: nat)
      requires Valid() && SoFar(m, i, lo, hi, result) && At(m, i).Some? && es == Entries(pages, At(m, i).value)
      requires j < |es| && es[j].key > hi && forall e :: e in es[..j] ==> e.key <= hi
      requires Contents() == Before(m) + AllEntries(pages, Leaves()[m..])
      requires Ordered() ==> forall e :: e in Before(m) ==> e.key < lo
      ensures Answers(m, lo, hi, result + InRange(es[..j], lo, hi))
      ensures Ordered() ==> result + InRange(es[..j], lo, hi) == InRange(Contents(), lo, hi)
      ensures Ordered() && lo == hi ==> result + InRange(es[..j], lo, hi) == Matching(Contents(), lo)
    {
      hide Inv, View, Flat, AllEntries, InRange, Chain, OrderedChain, ReadUpTo;
      var L := Leaves()[m..];
      assert L[i] == At(m, i).value;
      var b := ReadStops(pages, Before(m), L, i, j, lo, hi);
      Answered(m, b, lo, hi);
    }

    /** ... or behind the last leaf. */
    lemma ReadsAll(m: nat, i: nat, lo: Key, hi: Key, result: seq<RID>)
      requires Valid() && SoFar(m, i, lo, hi, result) && m + i == |Leaves()|
      requires Contents() == Before(m) + AllEntries(pages, Leaves()[m..])
      requires Ordered() ==> forall e :: e in Before(m) ==> e.key < lo
      ensures Answers(m, lo, hi, result)
      ensures Ordered() ==> result == InRange(Contents(), lo, hi)
      ensures Ordered() && lo == hi ==> result == Matching(Contents(), lo)
    {
      hide Inv, View, Flat, AllEntries, InRange, Chain, OrderedChain, ReadUpTo;
      var L := Leaves()[m..];
      assert L[..i] == L;
      ReadToEnd(Before(m), AllEntries(pages, L), hi);
      Answered(m, |Before(m)| + |AllEntries(pages, L)|, lo, hi);
    }

    /** What reading on from leaf m up to the first larger key answers; all there is when the chain is ordered. */
    ghost predicate Answers(m: nat, lo: Key, hi: Key, result: seq<RID>)
      reads this
    {
      && (exists b: nat :: ReadUpTo(Contents(), |Before(m)|, b, hi) && result == InRange(Contents()[|Before(m)|..b], lo, hi))
      && (Ordered() ==> result == InRange(Contents(), lo, hi))
    }

    /** The RIDs one leaf adds to a range, up to the first key past it. */
    static method RangeInLeaf(es: seq<Entry>, lo: Key, hi: Key) returns (rids: seq<RID>, past: bool, ghost j: nat)
      requires lo <= hi
      ensures j <= |es| && rids == InRange(es[..j], lo, hi)
      ensures if past then j < |es| && es[j].key > hi else j == |es|
      ensures forall e :: e in es[..j] ==> e.key <= hi
    {
      rids, j := [], 0;
      for k := 0 to |es|
        invariant j == k && rids == InRange(es[..k], lo, hi)
        invariant forall e :: e in es[..k] ==> e.key <= hi
      {
        RangeNext(es, k, lo, hi);
        if es[k].key < lo {
        } else if es[k].key > hi {
          return rids, true, k;
        } else {
          rids := rids + [es[k].rid];
        }
        assert es[..k + 1] == es[..k] + [es[k]];
        j := k + 1;
      }
      past := false;
    }

    /**
     The RIDs under key. The walk starts at the leaf the separators lead to and reads on until a
     larger key turns up. When the chain is ordered, that is every one stored.
     */
    method Search(key: Key) returns (result: seq<RID>)
      requires Valid()
      ensures Ordered() ==> result == Matching(Contents(), key)
      ensures exists m: nat :: StartsAt(m, key) && Answers(m, key, key, result)
    {
      hide *;
      var first, m := FirstLeafFor(key);
      var pageId := Some(first);
      result := [];
      ghost var i := 0;
      NothingRead(m, key, key);
      while pageId.Some?
        invariant SoFar(m, i, key, key, result) && pageId == At(m, i)
        decreases |Leaves()| - m - i
      {
        NextLeaf(m, i);
        var leaf := pages[pageId.value];
        LeafEntries(pages, pageId.value);
        var rids, past;
        ghost var j;
        rids, past, j := RangeInLeaf(leaf.entries, key, key);
        if past {
          ReadsPast(m, i, key, key, result, leaf.entries, j);
          return result + rids;
        }
        assert leaf.entries[..j] == leaf.entries;
        LeafRead(m, i, key, key, result, leaf.entries);
        result := result + rids;
        pageId := leaf.next;
        i := i + 1;
      }
      WalkEnds(m, i, key, key, result);
      ReadsAll(m, i, key, key, result);
    }

    lemma WalkEnds(m: nat, i: nat, lo: Key, hi: Key, result: seq<RID>)
      requires SoFar(m, i, lo, hi, result) && At(m, i) == None
      ensures m + i == |Leaves()|
    {
    }

    /** What was read from leaf m on is the whole answer when the chain is ordered. */
    lemma Answered(m: nat, b: nat, lo: Key, hi: Key)
      requires Valid() && m <= |Leaves()| && ReadUpTo(Contents(), |Before(m)|, b, hi)
      requires Contents() == Before(m) + AllEntries(pages, Leaves()[m..])
      requires Ordered() ==> forall e :: e in Before(m) ==> e.key < lo
      ensures Ordered() ==> InRange(Contents()[|Before(m)|..b], lo, hi) == InRange(Contents(), lo, hi)
    {
      hide Inv, View, Flat, AllEntries, InRange;
      if Ordered() {
        OrderedAscends();
        assert Contents()[..|Before(m)|] == Before(m);
        ReadIsAll(Contents(), |Before(m)|, b, lo, hi);
      }
    }

    method RangeSearch(lo: Key, hi: Key) returns (result: seq<RID>)
      requires Valid()
      ensures Ordered() ==> result == InRange(Contents(), lo, hi)
      ensures lo > hi ==> result == []
      ensures lo <= hi ==>
                exists m: nat :: StartsAt(m, lo) && Answers(m, lo, hi, result)
    {
      hide *;
      if lo > hi {
        NothingInRange(Contents(), lo, hi);
        return [];
      }
      var first, m := FirstLeafFor(lo);
      var pageId := Some(first);
      result := [];
      ghost var i := 0;
      NothingRead(m, lo, hi);
      while pageId.Some?
        invariant SoFar(m, i, lo, hi, result) && pageId == At(m, i)
        decreases |Leaves()| - m - i
      {
        NextLeaf(m, i);
        var leaf := pages[pageId.value];
        LeafEntries(pages, pageId.value);
        var rids, past;
        ghost var j;
        rids, past, j := RangeInLeaf(leaf.entries, lo, hi);
        if past {
          ReadsPast(m, i, lo, hi, result, leaf.entries, j);
          return result + rids;
        }
        assert leaf.entries[..j] == leaf.entries;
        LeafRead(m, i, lo, hi, result, leaf.entries);
        result := result + rids;
        pageId := leaf.next;
        i := i + 1;
      }
      WalkEnds(m, i, lo, hi, result);
      ReadsAll(m, i, lo, hi, result);
    }

    // ----- removal -----

    /** The entries of one leaf that stay, how many go, and whether the leaf reaches past key. */
    static method Sift(es: seq<Entry>, key: Key, rid: Option<RID>)
      returns (removed: nat, remaining: seq<Entry>, passedKey: bool)
      ensures remaining == Without(es, key, rid) && removed == |es| - |remaining|
      ensures passedKey <==> ReachesPast(es, key)
    {
      removed, remaining, passedKey := 0, [], false;
      var j := 0;
      while j < |es|
        invariant 0 <= j <= |es|
        invariant remaining == Without(es[..j], key, rid) && removed == j - |remaining|
        invariant passedKey <==> exists k :: 0 <= k < j && es[k].key > key
      {
        var e := es[j];
        WithoutNext(es, j, key, rid);
        if e.key > key {
          passedKey := true;
        }
        if e.key == key && (rid.None? || (removed == 0 && e.rid == rid.value)) {
          removed := removed + 1;
        } else {
          remaining := remaining + [e];
        }
        j := j + 1;
      }
      assert es[..j] == es;
    }

    /** A leaf of the chain loses entries, whether a descent can reach it or not. */
    method RewriteLeaf(pageId: nat, ghost key: Key, ghost rid: Option<RID>, remaining: seq<Entry>)
      requires Valid() && pageId in Leaves() && pageId in pages && pages[pageId].LeafPage?
      requires remaining == Without(Entries(pages, pageId), key, rid)
      modifies this`pages, this`linked
      ensures Valid() && (old(AllHalf()) ==> AllHalf()) && (old(Ordered()) ==> Ordered())
      ensures pages == WithEntries(old(pages), pageId, remaining)
    {
      hide Inv, Flat, AllEntries, Chain, Without, AllHalfPages, OrderedChain, Linked, Shows;
      var leaf := pages[pageId];
      ghost var P := pages;
      if pageId in linked {
        Reached(pageId);
        ShrinkLeaf(codec, linked, shape, root, pageId, key, rid);
        WriteLeafView(pages, linked, shape, behind, pageId, remaining);
        if AllHalf() {
          HalfShrink(codec, linked, pageId, key, rid);
        }
        linked := WithEntries(linked, pageId, remaining);
      } else {
        HiddenLeafView(pages, linked, shape, behind, pageId, remaining);
      }
      pages := pages[pageId := LeafPage(leaf.parent, leaf.next, remaining)];
      if OrderedChain(P, shape, behind) {
        RemovalKeepsOrder(P, pages, shape, behind, pageId, key, rid);
      }
    }

    /** A removal that started at leaf m, from the pages P0, has sifted i leaves. */
    ghost predicate Sifting(P0: Pages, m: nat, i: nat, key: Key, rid: Option<RID>)
      reads this
    {
      && m + i <= |Leaves()| && NoDup(Leaves())
      && Walked(P0, pages, Leaves()[m..], i, key, rid)
      && forall x :: x !in Leaves()[m..] ==> Entries(pages, x) == Entries(P0, x)
    }

    /** How many entries have gone since. */
    ghost function GoneSince(P0: Pages): int
      reads this
    {
      |AllEntries(P0, Leaves())| - |Contents()|
    }

    /** The walk has no reason to go on after i leaves. */
    ghost predicate MayStop(P0: Pages, m: nat, i: nat, key: Key, rid: Option<RID>)
      reads this
    {
      && m + i <= |Leaves()|
      && var seen := AllEntries(P0, Leaves()[m..][..i]);
         m + i == |Leaves()| || ReachesPast(seen, key) || (rid.Some? && Without(seen, key, rid) != seen)
    }

    lemma SiftStarts(m: nat, key: Key, rid: Option<RID>)
      requires Valid() && m <= |Leaves()|
      ensures Sifting(pages, m, 0, key, rid) && GoneSince(pages) == 0
      ensures Contents() == AllEntries(pages, Leaves()) && Before(m) == AllEntries(pages, Leaves()[..m])
      ensures Ordered() ==> KeySorted(Contents())
    {
      if Ordered() {
        OrderedAscends();
      }
      assert Leaves()[m..][..0] == [];
      NoEntries(pages);
      assert Without([], key, rid) == [];
    }

    lemma SiftingMeans(P0: Pages, m: nat, i: nat, key: Key, rid: Option<RID>)
      requires Sifting(P0, m, i, key, rid) && At(m, i).Some?
      ensures m + i < |Leaves()| && At(m, i).value == Leaves()[m + i] && NoDup(Leaves())
      ensures Walked(P0, pages, Leaves()[m..], i, key, rid)
      ensures forall x :: x !in Leaves()[m..] ==> Entries(pages, x) == Entries(P0, x)
      ensures GoneSince(P0) == |AllEntries(P0, Leaves())| - |AllEntries(pages, Leaves())|
    {
    }

    /** Leaf i of the walk has been sifted: P are the pages before that. */
    lemma LeafSifted(P0: Pages, P: Pages, m: nat, i: nat, key: Key, rid: Option<RID>)
      requires m + i < |Leaves()| && NoDup(Leaves()) && Walked(P0, P, Leaves()[m..], i, key, rid)
      requires forall x :: x !in Leaves()[m..] ==> Entries(P, x) == Entries(P0, x)
      requires rid.Some? ==> |AllEntries(P, Leaves())| == |AllEntries(P0, Leaves())|
      requires Entries(pages, Leaves()[m + i]) == Without(Entries(P, Leaves()[m + i]), key, rid)
      requires forall x :: x != Leaves()[m + i] ==> Entries(pages, x) == Entries(P, x)
      ensures Sifting(P0, m, i + 1, key, rid)
      ensures GoneSince(P0) == |AllEntries(P0, Leaves())| - |AllEntries(P, Leaves())|
                               + |Entries(P, Leaves()[m + i])| - |Entries(pages, Leaves()[m + i])|
      ensures rid.Some? && Entries(pages, Leaves()[m + i]) != Entries(P, Leaves()[m + i]) ==> MayStop(P0, m, i + 1, key, rid)
      ensures ReachesPast(Entries(P, Leaves()[m + i]), key) ==> MayStop(P0, m, i + 1, key, rid)
    {
      hide Flat, AllEntries, Without, ReachesPast;
      var L := Leaves()[m..];
      assert Leaves() == Leaves()[..m] + L && L[i] == Leaves()[m + i];
      EntriesAppend(P0, Leaves()[..m], L);
      EntriesAppend(P, Leaves()[..m], L);
      EntriesAppend(pages, Leaves()[..m], L);
      forall x | x in Leaves()[..m]
        ensures x !in L
      {
        NotTwice(Leaves()[..m], L, [], x);
      }
      EntriesFrame(P, P0, Leaves()[..m]);
      EntriesFrame(pages, P0, Leaves()[..m]);
      WalkLeaf(P0, P, pages, L, i, key, rid);
    }

    /** One step of the removal: sift leaf i of the walk, rewriting it if something went. */
    method RemoveInLeaf(pageId: nat, ghost m: nat, ghost i: nat, ghost P0: Pages, key: Key, rid: Option<RID>)
      returns (removed: nat, passedKey: bool)
      requires Valid() && At(m, i) == Some(pageId) && Sifting(P0, m, i, key, rid)
      requires rid.Some? ==> GoneSince(P0) == 0
      modifies this`pages, this`linked
      ensures Valid() && (old(AllHalf()) ==> AllHalf()) && (old(Ordered()) ==> Ordered())
      ensures Sifting(P0, m, i + 1, key, rid) && GoneSince(P0) == old(GoneSince(P0)) + removed
      ensures removed > 0 && rid.Some? ==> MayStop(P0, m, i + 1, key, rid)
      ensures passedKey ==> MayStop(P0, m, i + 1, key, rid)
    {
      hide *;
      ghost var L, P := Leaves(), pages;
      NextLeaf(m, i);
      SiftingMeans(P0, m, i, key, rid);
      var leaf := pages[pageId];
      LeafEntries(P, pageId);
      var remaining;
      removed, remaining, passedKey := Sift(leaf.entries, key, rid);
      WithoutShrinks(leaf.entries, key, rid);
      if removed > 0 {
        RewriteLeaf(pageId, key, rid, remaining);
        OtherEntries(P, pageId, remaining);
      }
      assert Leaves() == L;
      LeafSifted(P0, P, m, i, key, rid);
    }

    static lemma LeafEntries(P: Pages, x: nat)
      requires x in P && P[x].LeafPage?
      ensures Entries(P, x) == P[x].entries
    {
    }

    static lemma OtherEntries(P: Pages, x: nat, es: seq<Entry>)
      requires x in P && P[x].LeafPage?
      ensures Entries(WithEntries(P, x, es), x) == es
      ensures forall y :: y != x ==> Entries(WithEntries(P, x, es), y) == Entries(P, y)
    {
    }

    /**
     Remove key (and rid, when given). The walk starts where a search does and sifts leaf after
     leaf; when the chain is ordered, exactly what was asked to go is gone.
     */
    method Remove(key: Key, rid: Option<RID>) returns (removed: nat)
      requires Valid()
      modifies this`pages, this`linked
      ensures Valid() && (old(AllHalf()) ==> AllHalf()) && (AllReached() <==> old(AllReached()))
      ensures old(Ordered()) ==> Ordered() && Contents() == Without(old(Contents()), key, rid)
      ensures removed == |old(Contents())| - |Contents()|
      ensures exists m: nat :: old(StartsAt(m, key)) && SiftedFrom(old(Contents()), Contents(), |old(Before(m))|, key, rid)
    {
      hide *;
      var first, m := FirstLeafFor(key);
      ghost var P0, chain := pages, Leaves();
      var pageId := Some(first);
      removed := 0;
      ghost var i := 0;
      SiftStarts(m, key, rid);
      ReachedIs();
      while pageId.Some?
        invariant Valid() && (old(AllHalf()) ==> AllHalf()) && (old(Ordered()) ==> Ordered()) && Leaves() == chain
        invariant pageId == At(m, i) && Sifting(P0, m, i, key, rid) && removed == GoneSince(P0)
        invariant rid.Some? ==> removed == 0
        decreases |Leaves()| - m - i
      {
        NextLeaf(m, i);
        var count, passedKey := RemoveInLeaf(pageId.value, m, i, P0, key, rid);
        removed := removed + count;
        if (count > 0 && rid.Some?) || passedKey {
          Removed(P0, m, i + 1, key, rid);
          ReachedIs();
          return;
        }
        NextLeaf(m, i);
        pageId := pages[pageId.value].next;
        i := i + 1;
      }
      SiftEndsHere(P0, m, i, key, rid);
      Removed(P0, m, i, key, rid);
      ReachedIs();
    }

    lemma SiftEndsHere(P0: Pages, m: nat, i: nat, key: Key, rid: Option<RID>)
      requires Sifting(P0, m, i, key, rid) && At(m, i) == None
      ensures MayStop(P0, m, i, key, rid)
    {
    }

    /** What the whole walk did to the entries along the chain. */
    lemma Removed(P0: Pages, m: nat, i: nat, key: Key, rid: Option<RID>)
      requires Sifting(P0, m, i, key, rid) && MayStop(P0, m, i, key, rid)
      ensures var es, a := AllEntries(P0, Leaves()), |AllEntries(P0, Leaves()[..m])|;
              && GoneSince(P0) == |es| - |Contents()|
              && SiftedFrom(es, Contents(), a, key, rid)
              && (KeySorted(es) && (forall e :: e in AllEntries(P0, Leaves()[..m]) ==> e.key < key) ==> Contents() == Without(es, key, rid))
    {
      hide Flat, AllEntries, Without, ReachesPast;
      var L, W := Leaves(), Leaves()[m..];
      assert L == L[..m] + W;
      EntriesAppend(P0, L[..m], W);
      EntriesAppend(pages, L[..m], W);
      forall x | x in L[..m]
        ensures Entries(pages, x) == Entries(P0, x)
      {
        NotTwice(L[..m], W, [], x);
      }
      EntriesFrame(pages, P0, L[..m]);
      SiftedSoFar(AllEntries(P0, L[..m]), P0, pages, W, i, key, rid);
      var es, pre := AllEntries(P0, L), AllEntries(P0, L[..m]);
      assert es == pre + AllEntries(P0, W) && Contents() == pre + AllEntries(pages, W);
      assert es[..|pre|] == pre;
      var b := |pre| + |AllEntries(P0, W[..i])|;
      assert Sifted(es, Contents(), |pre|, b, key, rid) && SiftEnds(es, |pre|, b, key, rid);
      if KeySorted(es) && forall e :: e in pre ==> e.key < key {
        SiftIsAll(es, Contents(), |pre|, b, key, rid);
      }
    }

    // ----- insertion -----

    /** The state a leaf insert starts from. */
    ghost predicate AtLeaf(leafId: nat, entries: seq<Entry>, i: nat, e: Entry)
      reads this
    {
      && Valid() && leafId in shape.level && shape.level[leafId] == 0 && leafId in shape.lo && leafId in shape.hi
      && leafId in pages && pages[leafId].LeafPage? && leafId in linked && linked[leafId].LeafPage?
      && Entries(linked, leafId) == pages[leafId].entries && linked[leafId].parent == pages[leafId].parent
      && i <= |pages[leafId].entries| && entries == InsertAt(pages[leafId].entries, i, e)
      && SortedEntries(entries) && Takes(shape.lo[leafId], shape.hi[leafId], e.key)
      && LeafFits(codec, pages[leafId].entries)
    }

    /** Where the insert of e would put the entry in its leaf. */
    lemma PlaceInLeaf(leafId: nat, e: Entry) returns (i: nat)
      requires Valid() && leafId in shape.level && shape.level[leafId] == 0 && leafId in shape.lo && leafId in shape.hi
      requires Takes(shape.lo[leafId], shape.hi[leafId], e.key)
      ensures leafId in pages && pages[leafId].LeafPage? && leafId in linked && linked[leafId].LeafPage?
      ensures Entries(linked, leafId) == pages[leafId].entries && linked[leafId].parent == pages[leafId].parent
      ensures LeafFits(codec, pages[leafId].entries) && i <= |pages[leafId].entries|
      ensures StableSort(pages[leafId].entries + [e]) == InsertAt(pages[leafId].entries, i, e)
      ensures AtLeaf(leafId, InsertAt(pages[leafId].entries, i, e), i, e)
    {
      Reached(leafId);
      hide KidsOk, LinksOk, ChainOk, View;
      assert LeafBounds(linked, shape, leafId);
      assert NodeFits(codec, linked[leafId]);
      i := SortPlace(Entries(linked, leafId), e);
    }

    /** No leaf that only the chain leads to, behind the leaf an insert of key goes to, holds a smaller key. */
    ghost predicate NothingSmallerBehind(key: Key)
      reads this
    {
      NothingSmaller(pages, behind, HomeLeaf(pages, shape.level, root, key), key)
    }

    /** With all leaves reached there is nothing to stand behind. */
    lemma NothingHidden(key: Key)
      requires Valid() && AllReached()
      ensures NothingSmallerBehind(key)
    {
      HomeIsLeaf(key);
      hide Inv;
      NothingIsSmaller(pages, shape, behind, HomeLeaf(pages, shape.level, root, key), key);
    }

    lemma HomeIsLeaf(key: Key)
      requires Valid()
      ensures |shape.levels| > 0 && HomeLeaf(pages, shape.level, root, key) in shape.levels[0]
    {
      RootReached();
      Descends(root, key);
    }

    lemma {:induction false} Descends(id: nat, key: Key)
      requires Valid() && id in shape.level && id in shape.lo && id in shape.hi && Takes(shape.lo[id], shape.hi[id], key)
      ensures |shape.levels| > 0 && HomeLeaf(pages, shape.level, id, key) in shape.levels[0]
      decreases if id in shape.level then shape.level[id] else 0
    {
      Reached(id);
      if shape.level[id] == 0 {
        LeafInTree(codec, linked, shape, root, id);
      } else {
        DescendRight(codec, linked, shape, root, id, key);
        RootReached();
        hide Inv, View;
        Descends(pages[id].children[BisectRight(pages[id].keys, key)], key);
      }
    }

    /**
     Insert one entry. Where it goes and whether it can, is foreseen by the pages before: it fails at
     the leaf when that overflows and cannot be cut; it fails above when the leaf can be cut and some
     ancestor overflows in turn and cannot. In the second case the entry is stored, but no node leads
     to the pages beyond the last separator entered. An ordered chain stays ordered exactly when no
     such page behind the leaf holds a smaller key.
     */
    method Insert(key: Key, rid: RID) returns (outcome: Outcome)
      requires Valid()
      modifies this
      ensures Valid()
      ensures outcome.LeafNotSplittable? ==> unchanged(this)
      ensures outcome.LeafNotSplittable? <==> LeafStuck(codec, old(pages), old(shape).level, old(root), key, rid)
      ensures outcome.InternalNotSplittable? <==> CascadeStuck(codec, old(pages), old(shape).level, |old(shape).levels|, old(root), key, rid)
      ensures !outcome.LeafNotSplittable? ==>
                multiset(Contents()) == multiset(old(Contents())) + multiset{Entry(key, rid)}
      ensures !outcome.LeafNotSplittable? && old(Ordered()) ==> (Ordered() <==> old(NothingSmallerBehind(key)))
      ensures !outcome.InternalNotSplittable? && old(AllReached()) ==> AllReached()
      ensures old(AllHalf()) && HalfPage(codec, key) && RidInRange(rid) ==> outcome.Inserted? && AllHalf()
      ensures firstLeaf == old(firstLeaf)
      ensures !outcome.LeafNotSplittable? ==>
                var leaf := HomeLeaf(old(pages), old(shape).level, old(root), key);
                LeafWrites(codec, old(pages), old(root), old(pageCount), leaf, NewEntries(old(pages), leaf, key, rid), pages, root, pageCount)
    {
      hide *;
      ghost var P, T, s, b, top, n := pages, linked, shape, behind, root, pageCount;
      var leafId := FindLeafPageId(key, false);
      ghost var e := Entry(key, rid);
      ghost var i := PlaceInLeaf(leafId, e);
      var leaf := pages[leafId];
      var entries := StableSort(leaf.entries + [Entry(key, rid)]);
      Foreseen(leafId, key, rid, i);
      StoredIs();
      LeafStart(leafId, entries, i, e);
      if LeafFits(codec, entries) {
        outcome := WriteLeaf(leafId, entries, i, e);
      } else {
        outcome := SplitLeaf(leafId, entries, i, e);
      }
      StoredIs();
      if !outcome.LeafNotSplittable? {
        AfterInsert(codec, P, T, s, top, b, leafId, i, e, pages, linked, shape, root, behind);
      }
    }

    /** Valid(), spelled out. */
    lemma StoredIs()
      requires Valid()
      ensures metadata == Metadata(root, firstLeaf) && Numbered(pages, pageCount)
      ensures View(pages, linked, shape, behind) && StartsWith(shape, firstLeaf) && Inv(codec, linked, shape, root, {})
      ensures pageCount > 0 && pageCount !in pages && pageCount + 1 !in pages
      ensures |shape.levels| > 0 && Contents() == AllEntries(pages, Chain(behind, shape.levels[0]))
      ensures Leaves() == Chain(behind, shape.levels[0])
      ensures Ordered() <==> OrderedChain(pages, shape, behind)
      ensures AllReached() <==> NothingBehind(shape, behind)
      ensures AllHalf() <==> AllHalfPages(codec, linked)
    {
      hide Inv, View;
    }

    lemma MakeValid()
      requires metadata == Metadata(root, firstLeaf) && Numbered(pages, pageCount)
      requires View(pages, linked, shape, behind) && StartsWith(shape, firstLeaf) && Inv(codec, linked, shape, root, {})
      ensures Valid()
    {
      hide Inv, View;
    }

    /** Pending, spelled out. */
    lemma PendingIs(parent: nat, left: nat, sep: Key, right: nat)
      requires Pending(parent, left, sep, right)
      ensures metadata == Metadata(root, firstLeaf) && Numbered(pages, pageCount)
      ensures View(pages, linked, shape, behind) && StartsWith(shape, firstLeaf) && Open(codec, linked, shape, root, parent, left, sep, right)
      ensures pageCount > 0 && pageCount !in pages && pageCount + 1 !in pages
      ensures AllReached() <==> NothingBehind(shape, behind)
      ensures AllHalf() <==> AllHalfPages(codec, linked)
      ensures parent in linked && linked[parent].InternalPage? && left in linked[parent].children
      ensures |linked[parent].children| == |linked[parent].keys| + 1 && NodeFits(codec, linked[parent])
      ensures parent in pages && pages[parent] == linked[parent] && parent in shape.level && shape.level[parent] < |shape.levels|
    {
      NodeShown(pages, linked, shape, behind, parent);
      OpenParts(codec, linked, shape, root, parent, left, sep, right);
      LevelBelow(codec, linked[parent := WithChild(linked[parent], left, sep, right)], shape, root, parent);
      hide Inv, View, NodeFits;
    }

    static lemma LevelBelow(c: Codec, V: Pages, s: Shape, root: nat, q: nat)
      requires Inv(c, V, s, root, {q}) && q in s.level
      ensures s.level[q] < |s.levels|
    {
      hide KindsOk, LinksOk, KidsOk, SizesOk, BoundsOk, ChainOk;
    }

    lemma MakePending(parent: nat, left: nat, sep: Key, right: nat)
      requires metadata == Metadata(root, firstLeaf) && Numbered(pages, pageCount)
      requires View(pages, linked, shape, behind) && StartsWith(shape, firstLeaf) && Open(codec, linked, shape, root, parent, left, sep, right)
      ensures Pending(parent, left, sep, right)
      ensures AllReached() <==> NothingBehind(shape, behind)
      ensures AllHalf() <==> AllHalfPages(codec, linked)
    {
      hide Inv, View, Open;
    }

    /** What the pages before an insert say about it, in terms of the leaf it goes to. */
    lemma Foreseen(leafId: nat, key: Key, rid: RID, i: nat)
      requires Valid() && leafId == HomeLeaf(pages, shape.level, root, key) && leafId in shape.level && shape.level[leafId] == 0
      requires leafId in pages && pages[leafId].LeafPage? && i <= |pages[leafId].entries|
      requires leafId in linked && linked[leafId].parent == pages[leafId].parent
      requires StableSort(pages[leafId].entries + [Entry(key, rid)]) == InsertAt(pages[leafId].entries, i, Entry(key, rid))
      ensures var es := InsertAt(pages[leafId].entries, i, Entry(key, rid));
              && NewEntries(pages, leafId, key, rid) == es
              && (LeafStuck(codec, pages, shape.level, root, key, rid) <==> !LeafFits(codec, es) && forall p: nat :: !LeafCut(codec, es, p))
              && (CascadeStuck(codec, pages, shape.level, |shape.levels|, root, key, rid) <==> StuckAt(codec, linked, shape, leafId, es))
              && (LeafFits(codec, es) ==> !StuckAt(codec, linked, shape, leafId, es))
      ensures NothingSmallerBehind(key) <==> NothingSmaller(pages, behind, leafId, key)
    {
      hide HomeLeaf, LeafFits, LeafCut, IsLeafCut, Stuck, StableSort;
      var es := InsertAt(pages[leafId].entries, i, Entry(key, rid));
      assert NewEntries(pages, leafId, key, rid) == es;
      if pages[leafId].parent.Some? {
        ParentOf(codec, linked, shape, root, leafId);
        forall p: nat | IsLeafCut(codec, es, p)
          ensures p < |es|
          ensures Stuck(codec, pages, shape.level, |shape.levels|, pages[leafId].parent.value, leafId, es[p].key)
                  <==> Stuck(codec, linked, shape.level, |shape.levels|, pages[leafId].parent.value, leafId, es[p].key)
        {
          IsCut(codec, es, p);
          StuckShown(codec, pages, linked, shape, behind, root, pages[leafId].parent.value, leafId, es[p].key);
        }
      }
    }

    static lemma IsCut(c: Codec, es: seq<Entry>, p: nat)
      requires IsLeafCut(c, es, p)
      ensures 1 <= p < |es| && LeafCut(c, es, p)
    {
    }

    /** AtLeaf, spelled out. */
    lemma LeafStart(leafId: nat, entries: seq<Entry>, i: nat, e: Entry)
      requires AtLeaf(leafId, entries, i, e)
      ensures Valid() && leafId in shape.level && shape.level[leafId] == 0 && leafId in shape.lo && leafId in shape.hi
      ensures leafId in pages && pages[leafId].LeafPage? && leafId in linked && linked[leafId].LeafPage?
      ensures Entries(linked, leafId) == pages[leafId].entries == linked[leafId].entries && linked[leafId].parent == pages[leafId].parent
      ensures i <= |pages[leafId].entries| && entries == InsertAt(pages[leafId].entries, i, e)
      ensures SortedEntries(entries) && Takes(shape.lo[leafId], shape.hi[leafId], e.key)
      ensures LeafFits(codec, pages[leafId].entries)
      ensures metadata == Metadata(root, firstLeaf) && Numbered(pages, pageCount)
      ensures View(pages, linked, shape, behind) && StartsWith(shape, firstLeaf) && Inv(codec, linked, shape, root, {})
      ensures pageCount > 0 && pageCount !in pages && pageCount + 1 !in pages
      ensures AllReached() <==> NothingBehind(shape, behind)
      ensures AllHalf() <==> AllHalfPages(codec, linked)
    {
      StoredIs();
      hide Inv, View, Valid, SortedEntries, LeafFits, Takes;
    }

    method WriteLeaf(leafId: nat, entries: seq<Entry>, ghost i: nat, ghost e: Entry) returns (outcome: Outcome)
      requires AtLeaf(leafId, entries, i, e) && LeafFits(codec, entries)
      modifies this`pages, this`linked
      ensures outcome.Inserted? && Valid()
      ensures leafId in old(pages) && old(pages)[leafId].LeafPage? && pages == WithEntries(old(pages), leafId, entries)
      ensures Carries(WithEntries(old(pages), leafId, entries), old(shape), old(behind), pages, shape, behind)
      ensures LeafWrites(codec, old(pages), old(root), old(pageCount), leafId, entries, pages, root, pageCount)
      ensures old(AllHalf()) && HalfPage(codec, e.key) ==> AllHalf()
    {
      hide *;
      LeafStart(leafId, entries, i, e);
      var leaf := pages[leafId];
      LeafWritten(codec, pages, linked, shape, root, behind, leafId, i, e);
      FitsWrites(codec, pages, root, pageCount, leafId, entries);
      WithEntriesIs(pages, leafId, entries);
      ghost var P := pages;
      linked := WithEntries(linked, leafId, entries);
      pages := pages[leafId := LeafPage(leaf.parent, leaf.next, entries)];
      SamePages(P, pages, pageCount);
      MakeValid();
      CarriesItself(pages, linked, shape, behind);
      StoredIs();
      outcome := Inserted;
    }

    method SplitLeaf(leafId: nat, entries: seq<Entry>, ghost i: nat, ghost e: Entry) returns (outcome: Outcome)
      requires AtLeaf(leafId, entries, i, e) && !LeafFits(codec, entries)
      modifies this
      ensures Valid() && firstLeaf == old(firstLeaf)
      ensures outcome.LeafNotSplittable? ==> unchanged(this)
      ensures outcome.LeafNotSplittable? <==> forall p: nat :: !LeafCut(codec, entries, p)
      ensures outcome.InternalNotSplittable? <==> StuckAt(codec, old(linked), old(shape), leafId, entries)
      ensures leafId in old(pages) && old(pages)[leafId].LeafPage?
      ensures !outcome.LeafNotSplittable? ==>
                && Carries(WithEntries(old(pages), leafId, entries), old(shape), old(behind), pages, shape, behind)
                && LeafWrites(codec, old(pages), old(root), old(pageCount), leafId, entries, pages, root, pageCount)
      ensures !outcome.InternalNotSplittable? && old(AllReached()) ==> AllReached()
      ensures old(AllHalf()) && HalfPage(codec, e.key) && RidInRange(e.rid) ==> outcome.Inserted? && AllHalf()
    {
      hide *;
      ghost var P, T, s, b, top, n := pages, linked, shape, behind, root, pageCount;
      LeafStart(leafId, entries, i, e);
      var leaf := pages[leafId];
      if leaf.parent.None? {
        NotStuckAtTop(codec, linked, shape, leafId, entries);
        outcome := SplitRootLeaf(leafId, entries, i, e);
        return;
      }
      var parent, rightId := leaf.parent.value, pageCount;
      var cut := ChooseLeafSplit(codec, entries);
      if cut.None? {
        LeafCannotCut(codec, linked, leafId, i, e);
        NotStuckWithoutCut(codec, linked, shape, leafId, entries);
        return LeafNotSplittable;
      }
      var p := cut.value;
      IsTheLeafCut(codec, entries, p);
      ghost var t := LeafSplitDone(codec, pages, linked, shape, root, behind, leafId, i, e, p, parent, rightId);
      pageCount := pageCount + 1;
      pages := pages[leafId := LeafPage(leaf.parent, Some(rightId), entries[..p])]
                    [rightId := LeafPage(leaf.parent, leaf.next, entries[p..])];
      linked, behind, shape := LeafSplitPages(linked, leafId, entries, p, parent, rightId), BehindRight(behind, leafId, rightId), t;
      LeafSplitIs(P, leafId, entries, p, parent, rightId);
      OneMorePage(P, pages, rightId);
      CarriesStart(WithEntries(P, leafId, entries), s, b, pages, shape, behind, firstLeaf);
      MakePending(parent, leafId, entries[p].key, rightId);
      OpenPage(codec, linked, shape, root, parent, leafId, entries[p].key, rightId);
      SameParentPage(codec, P, T, s, b, leafId, entries, p, parent, rightId);
      StuckAtCut(codec, T, s, leafId, entries, p);
      ghost var P1, s1, b1 := pages, shape, behind;
      var ok := InsertIntoParent(parent, leafId, entries[p].key, rightId);
      CarriesOn(WithEntries(P, leafId, entries), s, b, P1, s1, b1, pages, shape, behind);
      SplitWrites(codec, P, top, n, leafId, entries, p, parent, pages, root, pageCount);
      outcome := if ok then Inserted else InternalNotSplittable;
    }

    method SplitRootLeaf(leafId: nat, entries: seq<Entry>, ghost i: nat, ghost e: Entry) returns (outcome: Outcome)
      requires AtLeaf(leafId, entries, i, e) && !LeafFits(codec, entries) && pages[leafId].parent.None?
      modifies this
      ensures Valid() && firstLeaf == old(firstLeaf)
      ensures !outcome.Inserted? ==> outcome.LeafNotSplittable? && unchanged(this)
      ensures outcome.LeafNotSplittable? <==> forall p: nat :: !LeafCut(codec, entries, p)
      ensures leafId in old(pages) && old(pages)[leafId].LeafPage?
      ensures outcome.Inserted? ==>
                && Carries(WithEntries(old(pages), leafId, entries), old(shape), old(behind), pages, shape, behind)
                && LeafWrites(codec, old(pages), old(root), old(pageCount), leafId, entries, pages, root, pageCount)
      ensures old(AllReached()) ==> AllReached()
      ensures old(AllHalf()) && HalfPage(codec, e.key) && RidInRange(e.rid) ==> outcome.Inserted? && AllHalf()
    {
      hide *;
      ghost var P, s, b, top, n := pages, shape, behind, root, pageCount;
      LeafStart(leafId, entries, i, e);
      var leaf := pages[leafId];
      var rightId, newRootId := pageCount, pageCount + 1;
      var cut := ChooseLeafSplit(codec, entries);
      if cut.None? {
        LeafCannotCut(codec, linked, leafId, i, e);
        return LeafNotSplittable;
      }
      var p := cut.value;
      IsTheLeafCut(codec, entries, p);
      OnlyRootHasNoParent(codec, linked, shape, root, leafId);
      ghost var t := RootLeafSplitDone(codec, pages, linked, shape, behind, leafId, i, e, p, rightId, newRootId);
      pageCount := pageCount + 2;
      pages := pages[leafId := LeafPage(Some(newRootId), Some(rightId), entries[..p])]
                    [rightId := LeafPage(Some(newRootId), leaf.next, entries[p..])]
                    [newRootId := InternalPage(None, [entries[p].key], [leafId, rightId])];
      linked := LeafSplitPages(linked, leafId, entries, p, newRootId, rightId)[newRootId := InternalPage(None, [entries[p].key], [leafId, rightId])];
      behind, shape := BehindRight(behind, leafId, rightId), t;
      root := newRootId;
      WriteMetadata();
      LeafSplitIs(P, leafId, entries, p, newRootId, rightId);
      RootCutIs(P, leafId, entries, p, rightId);
      TwoMorePages(P, pages, rightId);
      CarriesStart(WithEntries(P, leafId, entries), s, b, pages, shape, behind, firstLeaf);
      MakeValid();
      StoredIs();
      RootWrites(codec, P, top, n, leafId, entries, p, pages, root, pageCount);
      outcome := Inserted;
    }

    method WriteMetadata()
      modifies this`metadata
      ensures metadata == Metadata(root, firstLeaf)
    {
      metadata := Metadata(root, firstLeaf);
    }

    /**
     Put a separator and a right sibling into the parent of the node that was cut, cutting the
     parent in turn when it overflows. What stands along the chain does not change any more.
     */
    method InsertIntoParent(parent: nat, left: nat, sep: Key, right: nat) returns (ok: bool)
      requires Pending(parent, left, sep, right)
      modifies this
      ensures Valid() && firstLeaf == old(firstLeaf)
      ensures ok <==> !Stuck(codec, old(linked), old(shape).level, |old(shape).levels|, parent, left, sep)
      ensures Carries(old(pages), old(shape), old(behind), pages, shape, behind)
      ensures ok && old(AllReached()) ==> AllReached()
      ensures NoRoomAt(codec, old(linked), parent, left, sep) ==> pages == old(pages) && root == old(root) && pageCount == old(pageCount)
      ensures old(AllHalf()) && HalfPage(codec, sep) ==> ok && AllHalf()
      decreases |shape.levels| - (if parent in shape.level then shape.level[parent] else 0), 1
    {
      hide *;
      PendingIs(parent, left, sep, right);
      ghost var P := pages;
      NewKeys(linked[parent], left, sep, right);
      var updated := WithChild(pages[parent], left, sep, right);
      if InternalFits(codec, updated.keys) {
        Entered(codec, pages, linked, shape, root, behind, parent, left, sep, right);
        RoomIsNotStuck(codec, linked, shape, parent, left, sep, right);
        pages := pages[parent := updated];
        linked := linked[parent := updated];
        SamePages(P, pages, pageCount);
        MakeValid();
        StoredIs();
        ok := true;
      } else {
        ok := SplitInternal(parent, updated.keys, updated.children, left, sep, right);
      }
    }

    method SplitInternal(pageId: nat, keys: seq<Key>, children: seq<nat>, ghost left: nat, ghost sep: Key, ghost right: nat)
      returns (ok: bool)
      requires Pending(pageId, left, sep, right) && pageId in pages && pages[pageId].InternalPage? && left in pages[pageId].children
      requires |pages[pageId].children| == |pages[pageId].keys| + 1
      requires WithChild(pages[pageId], left, sep, right) == InternalPage(pages[pageId].parent, keys, children)
      requires !InternalFits(codec, keys)
      modifies this
      ensures Valid() && firstLeaf == old(firstLeaf)
      ensures ok <==> !Stuck(codec, old(linked), old(shape).level, |old(shape).levels|, pageId, left, sep)
      ensures Carries(old(pages), old(shape), old(behind), pages, shape, behind)
      ensures ok && old(AllReached()) ==> AllReached()
      ensures NoRoomAt(codec, old(linked), pageId, left, sep) ==> pages == old(pages) && root == old(root) && pageCount == old(pageCount)
      ensures old(AllHalf()) && HalfPage(codec, sep) ==> ok && AllHalf()
      decreases |shape.levels| - (if pageId in shape.level then shape.level[pageId] else 0), 0
    {
      hide *;
      PendingIs(pageId, left, sep, right);
      ghost var P, s := pages, shape;
      if pages[pageId].parent.None? {
        ok := SplitRootInternal(pageId, keys, children, left, sep, right);
        return;
      }
      var parent, rightId := pages[pageId].parent.value, pageCount;
      var cut := ChooseInternalSplit(codec, keys);
      if cut.None? {
        CannotCut(codec, linked, shape, pageId, left, sep, right);
        GiveUp(pageId, left, sep, right);
        return false;
      }
      var p := cut.value;
      IsTheInternalCut(codec, keys, p);
      CutIsRoom(codec, linked, pageId, left, sep, right, p);
      ghost var t := InternalSplitDone(codec, pages, linked, shape, root, behind, pageId, left, sep, right, keys, children, p, parent, rightId);
      pageCount := pageCount + 1;
      WriteInternalHalves(pageId, keys, children, p, parent, rightId);
      linked, shape := InternalSplitPages(linked, pageId, keys, children, p, parent, rightId), t;
      OneMorePage(P, pages, rightId);
      CarriesStart(P, s, behind, pages, shape, behind, firstLeaf);
      MakePending(parent, pageId, keys[p], rightId);
      ghost var P1, s1, b1 := pages, shape, behind;
      ok := InsertIntoParent(parent, pageId, keys[p], rightId);
      CarriesOn(P, s, b1, P1, s1, b1, pages, shape, behind);
    }

    method SplitRootInternal(pageId: nat, keys: seq<Key>, children: seq<nat>, ghost left: nat, ghost sep: Key, ghost right: nat)
      returns (ok: bool)
      requires Pending(pageId, left, sep, right) && pageId in pages && pages[pageId].InternalPage? && left in pages[pageId].children
      requires |pages[pageId].children| == |pages[pageId].keys| + 1
      requires WithChild(pages[pageId], left, sep, right) == InternalPage(None, keys, children)
      requires !InternalFits(codec, keys)
      modifies this
      ensures Valid() && firstLeaf == old(firstLeaf)
      ensures ok <==> !Stuck(codec, old(linked), old(shape).level, |old(shape).levels|, pageId, left, sep)
      ensures Carries(old(pages), old(shape), old(behind), pages, shape, behind)
      ensures ok && old(AllReached()) ==> AllReached()
      ensures NoRoomAt(codec, old(linked), pageId, left, sep) ==> pages == old(pages) && root == old(root) && pageCount == old(pageCount)
      ensures old(AllHalf()) && HalfPage(codec, sep) ==> ok && AllHalf()
    {
      hide *;
      PendingIs(pageId, left, sep, right);
      ghost var P, s := pages, shape;
      var rightId, newRootId := pageCount, pageCount + 1;
      var cut := ChooseInternalSplit(codec, keys);
      if cut.None? {
        CannotCut(codec, linked, shape, pageId, left, sep, right);
        GiveUp(pageId, left, sep, right);
        return false;
      }
      var p := cut.value;
      IsTheInternalCut(codec, keys, p);
      CutIsRoom(codec, linked, pageId, left, sep, right, p);
      ghost var t := RootInternalSplitDone(codec, pages, linked, shape, root, behind, pageId, left, sep, right, keys, children, p, rightId, newRootId);
      pageCount := pageCount + 2;
      WriteInternalHalves(pageId, keys, children, p, newRootId, rightId);
      pages := pages[newRootId := InternalPage(None, [keys[p]], [pageId, rightId])];
      linked := InternalSplitPages(linked, pageId, keys, children, p, newRootId, rightId)[newRootId := InternalPage(None, [keys[p]], [pageId, rightId])];
      root, shape := newRootId, t;
      WriteMetadata();
      TwoMorePages(P, pages, rightId);
      CarriesStart(P, s, behind, pages, shape, behind, firstLeaf);
      MakeValid();
      StoredIs();
      ok := true;
    }

    /** The pages stay as they are; the right sibling and what is below it can no longer be reached. */
    ghost method GiveUp(parent: nat, left: nat, sep: Key, right: nat)
      requires Pending(parent, left, sep, right)
      modifies this`shape, this`linked, this`behind
      ensures Valid() && Carries(pages, old(shape), old(behind), pages, shape, behind)
    {
      hide *;
      PendingIs(parent, left, sep, right);
      ghost var s, b := shape, behind;
      var U, t, d := GivenUp(codec, pages, linked, shape, root, behind, parent, left, sep, right);
      linked, shape, behind := U, t, d;
      CarriesStart(pages, s, b, pages, shape, behind, firstLeaf);
      MakeValid();
    }

    /** Both halves of a cut internal node, and the parent ids of all its children. */
    method WriteInternalHalves(pageId: nat, keys: seq<Key>, children: seq<nat>, p: nat, parent: nat, rightId: nat)
      requires pageId in pages && p < |keys| && |children| == |keys| + 1
      requires forall x :: x in children ==> x in pages
      modifies this`pages
      ensures pages == InternalSplitPages(old(pages), pageId, keys, children, p, parent, rightId)
    {
      pages := pages[pageId := InternalPage(Some(parent), keys[..p], children[..p + 1])]
                    [rightId := InternalPage(Some(parent), keys[p + 1..], children[p + 1..])];
      UpdateChildrenParent(children[..p + 1], pageId);
      UpdateChildrenParent(children[p + 1..], rightId);
    }

    method UpdateChildrenParent(children: seq<nat>, parent: nat)
      requires forall x :: x in children ==> x in pages
      modifies this`pages
      ensures pages == Reparent(old(pages), children, parent)
    {
      var i := 0;
      while i < |children|
        invariant 0 <= i <= |children|
        invariant pages == Reparent(old(pages), children[..i], parent)
      {
        assert children[..i + 1] == children[..i] + [children[i]];
        SetParentPageId(children[i], parent);
        i := i + 1;
      }
      assert children[..i] == children;
    }

    method SetParentPageId(pageId: nat, parent: nat)
      requires pageId in pages
      modifies this`pages
      ensures pages == old(pages)[pageId := SetParent(old(pages)[pageId], parent)]
    {
      var page := pages[pageId];
      if page.LeafPage? {
        pages := pages[pageId := LeafPage(Some(parent), page.next, page.entries)];
      } else {
        pages := pages[pageId := InternalPage(Some(parent), page.keys, page.children)];
      }
    }
  }

  // ----- whole runs -----

  datatype Operation =
    | Insertion(key: Key, rid: RID)
    | Removal(key: Key, only: Option<RID>)
    | Lookup(key: Key)
    | Scan(lo: Key, hi: Key)

  /** An insert stores its entry, or stores it where no node leads to its page, or is refused and changes nothing. */
  datatype Answer = Stored | StoredUnreached | Refused | Removed(count: nat) | Found(rids: seq<RID>)

  /** The RIDs are those of the stored entries in [lo, hi], smaller keys first. */
  ghost predicate Listed(m: multiset<Entry>, lo: Key, hi: Key, rids: seq<RID>) {
    exists es: seq<Entry> :: KeySorted(es) && rids == Rids(es) && EntriesIn(m, lo, hi, es)
  }

  ghost predicate EntriesIn(m: multiset<Entry>, lo: Key, hi: Key, es: seq<Entry>) {
    forall e: Entry :: multiset(es)[e] == if lo <= e.key <= hi then m[e] else 0
  }

  /** What one operation means for the multiset of stored entries, and what it answers. */
  ghost predicate Effect(m: multiset<Entry>, op: Operation, answer: Answer, m': multiset<Entry>) {
    match op
    case Insertion(key, rid) =>
      (answer.Stored? || answer.StoredUnreached? || answer.Refused?) && m' == if answer.Refused? then m else m + multiset{Entry(key, rid)}
    case Removal(key, rid) =>
      && (forall e: Entry :: m'[e] ==
            if e.key != key then m[e]
            else if rid.None? then 0
            else if e.rid == rid.value && m[e] > 0 then m[e] - 1
            else m[e])
      && answer.Removed? && answer.count + |m'| == |m|
    case Lookup(key) => m' == m && answer.Found? && forall r :: multiset(answer.rids)[r] == m[Entry(key, r)]
    case Scan(lo, hi) => m' == m && answer.Found? && Listed(m, lo, hi, answer.rids)
  }

  predicate Acceptable(c: Codec, op: Operation) {
    op.Insertion? ==> HalfPage(c, op.key) && RidInRange(op.rid)
  }

  lemma RangeIsListed(es: seq<Entry>, lo: Key, hi: Key)
    requires KeySorted(es)
    ensures Listed(multiset(es), lo, hi, InRange(es, lo, hi))
  {
    InRangeIsWithin(es, lo, hi);
    WithinSorted(es, lo, hi);
    forall e: Entry
      ensures multiset(Within(es, lo, hi))[e] == if lo <= e.key <= hi then multiset(es)[e] else 0
    {
      WithinCounts(es, lo, hi, e);
    }
    assert EntriesIn(multiset(es), lo, hi, Within(es, lo, hi));
  }

  lemma RemovalMeans(es: seq<Entry>, key: Key, only: Option<RID>)
    requires |Without(es, key, only)| <= |es|
    ensures Effect(multiset(es), Removal(key, only), Removed(|es| - |Without(es, key, only)|), multiset(Without(es, key, only)))
  {
    forall e: Entry
      ensures multiset(Without(es, key, only))[e] ==
                if e.key != key then multiset(es)[e]
                else if only.None? then 0
                else if e.rid == only.value && multiset(es)[e] > 0 then multiset(es)[e] - 1
                else multiset(es)[e]
    {
      WithoutCounts(es, key, only, e);
    }
  }

  lemma LookupMeans(es: seq<Entry>, key: Key)
    ensures Effect(multiset(es), Lookup(key), Found(Matching(es, key)), multiset(es))
  {
    forall r: RID
      ensures multiset(Matching(es, key))[r] == multiset(es)[Entry(key, r)]
    {
      MatchingCounts(es, key, r);
    }
  }

  /** What it means at least, whatever the order of the chain: nothing is lost or answered but what was asked for. */
  ghost predicate AtMost(m: multiset<Entry>, op: Operation, answer: Answer, m': multiset<Entry>) {
    match op
    case Insertion(key, rid) => Effect(m, op, answer, m')
    case Removal(key, rid) =>
      && (forall e: Entry :: if e.key != key || (rid.Some? && e.rid != rid.value) then m'[e] == m[e] else m'[e] <= m[e])
      && answer.Removed? && answer.count + |m'| == |m|
    case Lookup(key) => m' == m && answer.Found? && forall r :: multiset(answer.rids)[r] <= m[Entry(key, r)]
    case Scan(lo, hi) => m' == m && answer.Found? && exists es: seq<Entry> :: answer.rids == Rids(es) && SomeIn(m, lo, hi, es)
  }

  ghost predicate SomeIn(m: multiset<Entry>, lo: Key, hi: Key, es: seq<Entry>) {
    forall e: Entry :: multiset(es)[e] <= if lo <= e.key <= hi then m[e] else 0
  }

  lemma PartCounts(es: seq<Entry>, a: nat, b: nat, e: Entry)
    requires a <= b <= |es|
    ensures multiset(es)[e] == multiset(es[..a])[e] + multiset(es[a..b])[e] + multiset(es[b..])[e]
  {
    assert es == es[..a] + es[a..b] + es[b..];
  }

  lemma SiftedAtMost(es: seq<Entry>, es': seq<Entry>, a: nat, key: Key, rid: Option<RID>)
    requires SiftedFrom(es, es', a, key, rid) && |es'| <= |es|
    ensures AtMost(multiset(es), Removal(key, rid), Removed(|es| - |es'|), multiset(es'))
  {
    var b: nat :| Sifted(es, es', a, b, key, rid) && SiftEnds(es, a, b, key, rid);
    forall e: Entry
      ensures if e.key != key || (rid.Some? && e.rid != rid.value) then multiset(es')[e] == multiset(es)[e] else multiset(es')[e] <= multiset(es)[e]
    {
      PartCounts(es, a, b, e);
      WithoutCounts(es[a..b], key, rid, e);
    }
  }

  lemma ReadAtMost(es: seq<Entry>, a: nat, b: nat, lo: Key, hi: Key)
    requires a <= b <= |es|
    ensures AtMost(multiset(es), Scan(lo, hi), Found(InRange(es[a..b], lo, hi)), multiset(es))
    ensures lo == hi ==> AtMost(multiset(es), Lookup(lo), Found(InRange(es[a..b], lo, lo)), multiset(es))
  {
    InRangeIsWithin(es[a..b], lo, hi);
    forall e: Entry
      ensures multiset(Within(es[a..b], lo, hi))[e] <= if lo <= e.key <= hi then multiset(es)[e] else 0
    {
      WithinCounts(es[a..b], lo, hi, e);
      PartCounts(es, a, b, e);
    }
    assert SomeIn(multiset(es), lo, hi, Within(es[a..b], lo, hi));
    if lo == hi {
      forall r: RID
        ensures multiset(InRange(es[a..b], lo, lo))[r] <= multiset(es)[Entry(lo, r)]
      {
        MatchingCounts(es[a..b], lo, r);
        PartCounts(es, a, b, Entry(lo, r));
      }
    }
  }

  lemma EmptyScan(es: seq<Entry>, lo: Key, hi: Key)
    requires lo > hi
    ensures AtMost(multiset(es), Scan(lo, hi), Found([]), multiset(es))
  {
    assert Rids([]) == [];
    assert SomeIn(multiset(es), lo, hi, []);
  }

  /** A lookup or a scan, from what a search promises. */
  lemma AnswersMean(tree: BPlusTree, m: nat, lo: Key, hi: Key, rids: seq<RID>)
    requires tree.Valid() && tree.Answers(m, lo, hi, rids)
    ensures AtMost(multiset(tree.Contents()), Scan(lo, hi), Found(rids), multiset(tree.Contents()))
    ensures lo == hi ==> AtMost(multiset(tree.Contents()), Lookup(lo), Found(rids), multiset(tree.Contents()))
    ensures tree.Ordered() ==> Effect(multiset(tree.Contents()), Scan(lo, hi), Found(rids), multiset(tree.Contents()))
    ensures tree.Ordered() && lo == hi ==> Effect(multiset(tree.Contents()), Lookup(lo), Found(rids), multiset(tree.Contents()))
  {
    hide Inv, View, AllEntries, Flat, Chain, OrderedChain, InRange, AtMost, Listed;
    var es := tree.Contents();
    var b: nat :| ReadUpTo(es, |tree.Before(m)|, b, hi) && rids == InRange(es[|tree.Before(m)|..b], lo, hi);
    ReadAtMost(es, |tree.Before(m)|, b, lo, hi);
    if tree.Ordered() {
      tree.OrderedAscends();
      RangeIsListed(es, lo, hi);
      LookupMeans(es, lo);
    }
  }

  lemma InsertionMeans(m: multiset<Entry>, key: Key, rid: RID, answer: Answer)
    requires answer.Stored? || answer.StoredUnreached? || answer.Refused?
    ensures var m' := if answer.Refused? then m else m + multiset{Entry(key, rid)};
            Effect(m, Insertion(key, rid), answer, m') && AtMost(m, Insertion(key, rid), answer, m')
  {
  }

  lemma HalfIsAcceptable(c: Codec, key: Key, rid: RID)
    ensures Acceptable(c, Insertion(key, rid)) <==> HalfPage(c, key) && RidInRange(rid)
  {
  }

  /** What a removal promises, as one step of a run. */
  lemma SiftingMeans(before: seq<Entry>, after: seq<Entry>, a: nat, key: Key, only: Option<RID>, removed: nat)
    requires SiftedFrom(before, after, a, key, only) && removed == |before| - |after|
    ensures AtMost(multiset(before), Removal(key, only), Removed(removed), multiset(after))
    ensures after == Without(before, key, only) ==> Effect(multiset(before), Removal(key, only), Removed(removed), multiset(after))
  {
    hide *;
    SiftedAtMost(before, after, a, key, only);
    if after == Without(before, key, only) {
      RemovalMeans(before, key, only);
    }
  }

  lemma EmptyScanMeans(tree: BPlusTree, lo: Key, hi: Key)
    requires tree.Valid() && lo > hi
    ensures AtMost(multiset(tree.Contents()), Scan(lo, hi), Found([]), multiset(tree.Contents()))
    ensures tree.Ordered() ==> Effect(multiset(tree.Contents()), Scan(lo, hi), Found([]), multiset(tree.Contents()))
  {
    hide Inv, View, AllEntries, Flat, Chain, OrderedChain, AtMost, Listed;
    EmptyScan(tree.Contents(), lo, hi);
    if tree.Ordered() {
      tree.OrderedAscends();
      NothingInRange(tree.Contents(), lo, hi);
      RangeIsListed(tree.Contents(), lo, hi);
    }
  }

  method Apply(tree: BPlusTree, op: Operation) returns (answer: Answer)
    requires tree.Valid()
    modifies tree
    ensures tree.Valid()
    ensures old(tree.Ordered()) ==> Effect(multiset(old(tree.Contents())), op, answer, multiset(tree.Contents()))
    ensures AtMost(multiset(old(tree.Contents())), op, answer, multiset(tree.Contents()))
    ensures old(tree.Ordered()) && !tree.Ordered() ==> op.Insertion? && !old(tree.AllReached())
    ensures old(tree.AllReached()) && answer != StoredUnreached ==> tree.AllReached()
    ensures old(tree.AllHalf()) && Acceptable(tree.codec, op) ==> tree.AllHalf() && answer != Refused && answer != StoredUnreached
  {
    hide *;
    ghost var before := tree.Contents();
    match op {
      case Insertion(key, rid) =>
        HalfIsAcceptable(tree.codec, key, rid);
        if tree.AllReached() {
          tree.NothingHidden(key);
        }
        var outcome := tree.Insert(key, rid);
        answer := match outcome case Inserted => Stored case LeafNotSplittable => Refused case InternalNotSplittable => StoredUnreached;
        InsertionMeans(multiset(before), key, rid, answer);
      case Removal(key, only) =>
        var removed := tree.Remove(key, only);
        ghost var m: nat :| old(tree.StartsAt(m, key)) && SiftedFrom(before, tree.Contents(), |old(tree.Before(m))|, key, only);
        SiftingMeans(before, tree.Contents(), |old(tree.Before(m))|, key, only, removed);
        answer := Removed(removed);
      case Lookup(key) =>
        var rids := tree.Search(key);
        ghost var m: nat :| tree.StartsAt(m, key) && tree.Answers(m, key, key, rids);
        AnswersMean(tree, m, key, key, rids);
        answer := Found(rids);
      case Scan(lo, hi) =>
        var rids := tree.RangeSearch(lo, hi);
        if lo > hi {
          EmptyScanMeans(tree, lo, hi);
        } else {
          ghost var m: nat :| tree.StartsAt(m, lo) && tree.Answers(m, lo, hi, rids);
          AnswersMean(tree, m, lo, hi, rids);
        }
        answer := Found(rids);
    }
  }

  /** Until an insert has left its page unreached, and one operation longer, the chain is ordered. */
  ghost predicate OrderedUntil(answers: seq<Answer>, ordered: seq<bool>) {
    && |ordered| == |answers| + 1
    && forall i :: 0 <= i <= |answers| && StoredUnreached !in answers[..i] ==> ordered[i] && (i < |answers| ==> ordered[i + 1])
  }

  lemma OrderedAtFirst()
    ensures OrderedUntil([], [true])
  {
    var first: seq<bool> := [true];
    assert first[0];
  }

  lemma OrderedLonger(answers: seq<Answer>, ordered: seq<bool>, answer: Answer, next: bool)
    requires OrderedUntil(answers, ordered) && (StoredUnreached !in answers && ordered[|answers|] ==> next)
    ensures OrderedUntil(answers + [answer], ordered + [next])
  {
    var more := answers + [answer];
    forall i | 0 <= i <= |more| && StoredUnreached !in more[..i]
      ensures (ordered + [next])[i] && (i < |more| ==> (ordered + [next])[i + 1])
    {
      if i <= |answers| {
        assert more[..i] == answers[..i];
        assert i == |answers| ==> answers[..i] == answers;
      } else {
        assert more[..i] == more && more[..|answers|] == answers;
        assert answers[..|answers|] == answers;
        assert forall x :: x in answers ==> x in more;
      }
    }
  }

  /** Every step of a run so far is one of its operation, in full where the chain was ordered. */
  ghost predicate Traced(ops: seq<Operation>, answers: seq<Answer>, trace: seq<multiset<Entry>>, ordered: seq<bool>) {
    && |answers| <= |ops| && |trace| == |ordered| == |answers| + 1
    && (forall i :: 0 <= i < |answers| && ordered[i] ==> Effect(trace[i], ops[i], answers[i], trace[i + 1]))
    && (forall i :: 0 <= i < |answers| ==> AtMost(trace[i], ops[i], answers[i], trace[i + 1]))
  }

  lemma TracedAtFirst(ops: seq<Operation>, m: multiset<Entry>, o: bool)
    ensures Traced(ops, [], [m], [o])
  {
  }

  lemma TracedLonger(ops: seq<Operation>, answers: seq<Answer>, trace: seq<multiset<Entry>>, ordered: seq<bool>,
                     answer: Answer, m: multiset<Entry>, next: bool)
    requires Traced(ops, answers, trace, ordered) && |answers| < |ops|
    requires ordered[|answers|] ==> Effect(trace[|answers|], ops[|answers|], answer, m)
    requires AtMost(trace[|answers|], ops[|answers|], answer, m)
    ensures Traced(ops, answers + [answer], trace + [m], ordered + [next])
  {
    hide Effect, AtMost;
  }

  lemma TracedMeans(ops: seq<Operation>, answers: seq<Answer>, trace: seq<multiset<Entry>>, ordered: seq<bool>)
    requires Traced(ops, answers, trace, ordered)
    ensures |answers| <= |ops| && |trace| == |ordered| == |answers| + 1
    ensures forall i :: 0 <= i < |answers| && ordered[i] ==> Effect(trace[i], ops[i], answers[i], trace[i + 1])
    ensures forall i :: 0 <= i < |answers| ==> AtMost(trace[i], ops[i], answers[i], trace[i + 1])
  {
    hide Effect, AtMost;
  }

  /**
   Any run from any tree, with keys of any size: the tree stores and answers what the run means for a
   multiset, as long as the chain is ordered, and never loses or answers anything but what was asked
   for. From a tree that reaches all its leaves the chain stays ordered at least until an insert after
   one that left its page unreached. With entries of at most half a page every insert succeeds, so
   that never happens.
   */
  method Replay(tree: BPlusTree, ops: seq<Operation>)
    returns (answers: seq<Answer>, ghost trace: seq<multiset<Entry>>, ghost ordered: seq<bool>)
    requires tree.Valid()
    modifies tree
    ensures tree.Valid()
    ensures |answers| == |ops| && |trace| == |ops| + 1 && trace[0] == multiset(old(tree.Contents()))
    ensures |ordered| == |ops| + 1 && (ordered[0] <==> old(tree.Ordered())) && (ordered[|ops|] <==> tree.Ordered())
    ensures forall i :: 0 <= i < |ops| && ordered[i] ==> Effect(trace[i], ops[i], answers[i], trace[i + 1])
    ensures forall i :: 0 <= i < |ops| ==> AtMost(trace[i], ops[i], answers[i], trace[i + 1])
    ensures multiset(tree.Contents()) == trace[|ops|]
    ensures old(tree.Ordered()) && old(tree.AllReached()) ==> OrderedUntil(answers, ordered)
    ensures old(tree.AllHalf()) && (forall i :: 0 <= i < |ops| ==> Acceptable(tree.codec, ops[i])) ==>
              forall i :: 0 <= i < |ops| ==> answers[i] != Refused && answers[i] != StoredUnreached
  {
    hide *;
    answers, trace, ordered := [], [multiset(tree.Contents())], [tree.Ordered()];
    ghost var whole := tree.Ordered() && tree.AllReached();
    OrderedAtFirst();
    TracedAtFirst(ops, multiset(tree.Contents()), tree.Ordered());
    ghost var small := tree.AllHalf() && forall i :: 0 <= i < |ops| ==> Acceptable(tree.codec, ops[i]);
    for i := 0 to |ops|
      invariant tree.Valid() && (small ==> tree.AllHalf())
      invariant |answers| == i && |trace| == i + 1 && trace[0] == multiset(old(tree.Contents()))
      invariant |ordered| == i + 1 && (ordered[i] <==> tree.Ordered()) && Traced(ops, answers, trace, ordered)
      invariant multiset(tree.Contents()) == trace[i]
      invariant ordered[0] <==> old(tree.Ordered())
      invariant whole && StoredUnreached !in answers ==> tree.AllReached()
      invariant whole ==> OrderedUntil(answers, ordered)
      invariant small ==> forall j :: 0 <= j < i ==> answers[j] != Refused && answers[j] != StoredUnreached
    {
      var answer := Apply(tree, ops[i]);
      if whole {
        OrderedLonger(answers, ordered, answer, tree.Ordered());
      }
      TracedLonger(ops, answers, trace, ordered, answer, multiset(tree.Contents()), tree.Ordered());
      answers := answers + [answer];
      trace := trace + [multiset(tree.Contents())];
      ordered := ordered + [tree.Ordered()];
    }
    TracedMeans(ops, answers, trace, ordered);
  }
}
