/**
 When an insert into the B+ tree gets stuck: read off the pages before the insert, the leaf it
 goes to, the separators the splits would hand up one after the other, and whether some
 ancestor would overflow without having an admissible cut (engine/indexes/bplus_tree.py).
 */
module BPlusCascade {
  import opened Common
  import opened BPlusPages
  import opened BPlusInvariant
  import opened BPlusSplit
  import opened BPlusLemmas
  import opened BPlusSteps

  /** The separators of q with one more behind child n. */
  function WithKey(page: Page, n: nat, sep: Key): seq<Key>
    requires page.InternalPage? && n in page.children && |page.children| == |page.keys| + 1
  {
    InsertAt(page.keys, IndexOf(page.children, n), sep)
  }

  /**
   Handing the separator of a split of n to its parent q, and on from there, meets an overfull
   node without an admissible cut. A root that is cut gets a new root, which always has room.
   */
  ghost predicate Stuck(c: Codec, P: Pages, level: map<nat, nat>, top: nat, q: nat, n: nat, sep: Key)
    decreases top - if q in level then level[q] else 0
  {
    && q in level && q in P && P[q].InternalPage? && n in P[q].children && |P[q].children| == |P[q].keys| + 1
    && var ks := WithKey(P[q], n, sep);
       && !InternalFits(c, ks)
       && ((forall p: nat :: !InternalCut(c, ks, p))
           || (P[q].parent.Some? && Higher(level, top, q, P[q].parent.value)
               && exists p: nat :: IsInternalCut(c, ks, p) && Stuck(c, P, level, top, P[q].parent.value, q, ks[p])))
  }

  predicate Higher(level: map<nat, nat>, top: nat, q: nat, up: nat)
    requires q in level
  {
    up in level && level[q] < level[up] < top
  }

  /** Only q and what is above it matter. */
  lemma {:induction false} StuckFrame(c: Codec, P: Pages, level: map<nat, nat>, Q: Pages, level': map<nat, nat>, top: nat, q: nat, n: nat, sep: Key)
    requires q in level && forall x :: x in level ==> x in level' && level'[x] == level[x]
    requires forall x :: x in level' && level'[x] >= level[q] ==> x in level
    requires forall x :: x in level && level[x] >= level[q] ==> (x in P <==> x in Q) && (x in P ==> P[x] == Q[x])
    ensures Stuck(c, P, level, top, q, n, sep) <==> Stuck(c, Q, level', top, q, n, sep)
    decreases top - level[q]
  {
    if q in P && P[q].InternalPage? && n in P[q].children && |P[q].children| == |P[q].keys| + 1 && P[q].parent.Some? {
      var up := P[q].parent.value;
      var ks := WithKey(P[q], n, sep);
      if Higher(level, top, q, up) {
        assert Higher(level', top, q, up);
        forall p: nat | IsInternalCut(c, ks, p)
          ensures Stuck(c, P, level, top, up, q, ks[p]) <==> Stuck(c, Q, level', top, up, q, ks[p])
        {
          StuckFrame(c, P, level, Q, level', top, up, q, ks[p]);
        }
      }
    }
  }

  lemma NoCutIsStuck(c: Codec, P: Pages, level: map<nat, nat>, top: nat, q: nat, n: nat, sep: Key)
    requires q in level && q in P && P[q].InternalPage? && n in P[q].children && |P[q].children| == |P[q].keys| + 1
    requires !InternalFits(c, WithKey(P[q], n, sep)) && forall p: nat :: !InternalCut(c, WithKey(P[q], n, sep), p)
    ensures Stuck(c, P, level, top, q, n, sep)
  {
  }

  /** With the cut that is chosen: stuck exactly when the next level is. */
  lemma StuckAbove(c: Codec, P: Pages, level: map<nat, nat>, top: nat, q: nat, n: nat, sep: Key, p: nat)
    requires q in level && q in P && P[q].InternalPage? && n in P[q].children && |P[q].children| == |P[q].keys| + 1
    requires !InternalFits(c, WithKey(P[q], n, sep)) && IsInternalCut(c, WithKey(P[q], n, sep), p)
    ensures P[q].parent.None? ==> !Stuck(c, P, level, top, q, n, sep)
    ensures P[q].parent.Some? && Higher(level, top, q, P[q].parent.value) ==>
              (Stuck(c, P, level, top, q, n, sep) <==> Stuck(c, P, level, top, P[q].parent.value, q, WithKey(P[q], n, sep)[p]))
  {
    var ks := WithKey(P[q], n, sep);
    forall r: nat | IsInternalCut(c, ks, r)
      ensures r == p
    {
      OneBest(|ks| - 1, p, r);
    }
  }

  /** The leaf an insert of key goes to. */
  ghost function HomeLeaf(P: Pages, level: map<nat, nat>, id: nat, key: Key): nat
    decreases if id in level then level[id] else 0
  {
    if id in level && id in P && P[id].InternalPage? && |P[id].children| == |P[id].keys| + 1 then
      var child := P[id].children[BisectRight(P[id].keys, key)];
      if child in level && level[child] < level[id] then HomeLeaf(P, level, child, key) else id
    else id
  }

  /** The leaf a search for key starts at. */
  ghost function StartLeaf(P: Pages, level: map<nat, nat>, id: nat, key: Key): nat
    decreases if id in level then level[id] else 0
  {
    if id in level && id in P && P[id].InternalPage? && |P[id].children| == |P[id].keys| + 1 then
      var child := P[id].children[BisectLeft(P[id].keys, key)];
      if child in level && level[child] < level[id] then StartLeaf(P, level, child, key) else id
    else id
  }

  /** The entries of the home leaf after the insert. */
  ghost function NewEntries(P: Pages, leaf: nat, key: Key, rid: RID): seq<Entry> {
    StableSort(Entries(P, leaf) + [Entry(key, rid)])
  }

  /** The leaf overflows and cannot be cut. */
  ghost predicate LeafStuck(c: Codec, P: Pages, level: map<nat, nat>, root: nat, key: Key, rid: RID) {
    var es := NewEntries(P, HomeLeaf(P, level, root, key), key, rid);
    !LeafFits(c, es) && forall p: nat :: !LeafCut(c, es, p)
  }

  /** The leaf overflows and can be cut, but some ancestor that overflows in turn cannot. */
  ghost predicate CascadeStuck(c: Codec, P: Pages, level: map<nat, nat>, top: nat, root: nat, key: Key, rid: RID) {
    var leaf := HomeLeaf(P, level, root, key);
    var es := NewEntries(P, leaf, key, rid);
    && !LeafFits(c, es)
    && leaf in P && P[leaf].parent.Some?
    && exists p: nat :: IsLeafCut(c, es, p) && Stuck(c, P, level, top, P[leaf].parent.value, leaf, es[p].key)
  }

  lemma OnlyLeafCut(c: Codec, es: seq<Entry>, p: nat)
    requires IsLeafCut(c, es, p)
    ensures LeafCut(c, es, p) && forall r: nat :: IsLeafCut(c, es, r) ==> r == p
  {
    forall r: nat | IsLeafCut(c, es, r)
      ensures r == p
    {
      OneBest(|es|, p, r);
    }
  }

  // ----- the pages above a split stay as they are -----

  lemma LeafSplitLeavesAbove(c: Codec, P: Pages, level: map<nat, nat>, top: nat, n: nat, es: seq<Entry>, p: nat, q: nat, r: nat, sep: Key)
    requires n in P && P[n].LeafPage? && p <= |es| && r !in P && r !in level && n in level && q in level
    requires level[n] < level[q]
    ensures Stuck(c, P, level, top, q, n, sep) <==> Stuck(c, LeafSplitPages(P, n, es, p, q, r), level[r := level[n]], top, q, n, sep)
  {
    StuckFrame(c, P, level, LeafSplitPages(P, n, es, p, q, r), level[r := level[n]], top, q, n, sep);
  }

  lemma InternalSplitLeavesAbove(c: Codec, P: Pages, s: Shape, root: nat, n: nat, ks: seq<Key>, cs: seq<nat>, p: nat, q: nat, r: nat, sep: Key)
    requires n in P && |cs| == |ks| + 1 && p < |ks|
    requires Inv(c, P[n := InternalPage(Some(q), ks, cs)], s, root, {n})
    requires n in s.level && q in s.level && s.level[n] < s.level[q] && r !in P && r !in s.level
    ensures Stuck(c, P, s.level, |s.levels|, q, n, sep) <==>
            Stuck(c, InternalSplitPages(P, n, ks, cs, p, q, r), s.level[r := s.level[n]], |s.levels|, q, n, sep)
  {
    hide LevelsOk, KidsOk, SizesOk, BoundsOk, ChainOk;
    var P0 := P[n := InternalPage(Some(q), ks, cs)];
    var Q := InternalSplitPages(P, n, ks, cs, p, q, r);
    forall x | x in s.level && s.level[x] >= s.level[q]
      ensures x !in cs
    {
      forall j | 0 <= j < |cs|
        ensures cs[j] != x
      {
        assert ChildLinked(P0, s, n, Children(P0, n)[j]);
      }
    }
    StuckFrame(c, P, s.level, Q, s.level[r := s.level[n]], |s.levels|, q, n, sep);
  }
}
