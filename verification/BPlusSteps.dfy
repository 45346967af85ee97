/**
 The page writes of each kind of split of the B+ tree, shown to be one cut in the sense
 of BPlusSplit: leaf or internal node, below an existing parent or below a new root.

 A split writes several pages one after the other: the left half over the old page, the
 right half on a new page, the leaf link or the parent ids of the moved children, and the
 parent with one more separator and child. For a root there is a new page above as well.
 LeafSplit, InternalSplit, RootLeafSplit and RootInternalSplit take the pages after all of
 these writes and give the shape under which they satisfy the invariant again. The parent
 may be overfull at that point; the next step of the cascade deals with it.
 The second half of the file is about entries of at most half a page body: a split keeps
 them so, and with them no node is ever without an admissible cut.
 */
module BPlusSteps {
  import opened Common
  import opened BPlusPages
  import opened BPlusInvariant
  import opened BPlusSplit
  import opened BPlusLemmas

  /** Parent ids after `children` have been told that their parent is p. */
  function Reparent(P: Pages, children: seq<nat>, p: nat): Pages {
    map id | id in P :: if id in children then SetParent(P[id], p) else P[id]
  }

  function LinkChild(P: Pages, q: nat, n: nat, sep: Key, r: nat): Pages
    requires q in P && P[q].InternalPage? && n in P[q].children && |P[q].children| == |P[q].keys| + 1
  {
    P[q := WithChild(P[q], n, sep, r)]
  }

  /** Pages after leaf n has been cut at position p into n and r, both below q. */
  function LeafSplitPages(P: Pages, n: nat, es: seq<Entry>, p: nat, q: nat, r: nat): Pages
    requires n in P && P[n].LeafPage? && p <= |es|
  {
    P[n := LeafPage(Some(q), Some(r), es[..p])][r := LeafPage(Some(q), P[n].next, es[p..])]
  }

  /** Pages after internal node n, overfull as (ks, cs), has been cut around separator p. */
  function InternalSplitPages(P: Pages, n: nat, ks: seq<Key>, cs: seq<nat>, p: nat, q: nat, r: nat): Pages
    requires p < |ks| && |cs| == |ks| + 1
  {
    var left := InternalPage(Some(q), ks[..p], cs[..p + 1]);
    var right := InternalPage(Some(q), ks[p + 1..], cs[p + 1..]);
    Reparent(Reparent(P[n := left][r := right], cs[..p + 1], n), cs[p + 1..], r)
  }

  function LeafStep(c: Codec, P: Pages, s: Shape, root: nat, ex: set<nat>, n: nat, es: seq<Entry>, p: nat, q: nat, r: nat): Step
    requires n in P && P[n].LeafPage? && p < |es| && q != n && q != r
    requires q in P && P[q].InternalPage? && n in P[q].children && |P[q].children| == |P[q].keys| + 1
  {
    Step(c, WithEntries(P, n, es), LinkChild(LeafSplitPages(P, n, es, p, q, r), q, n, es[p].key, r),
         s, root, ex, n, q, r, es[p].key)
  }

  lemma LeafStepReady(c: Codec, P: Pages, s: Shape, root: nat, ex: set<nat>, n: nat, es: seq<Entry>, p: nat, q: nat, r: nat)
    requires n in P && P[n].LeafPage? && P[n].parent == Some(q)
    requires Inv(c, WithEntries(P, n, es), s, root, ex)
    requires n in s.level && n != root && LeafCut(c, es, p) && r !in P && r != 0
    ensures q in P && P[q].InternalPage? && n in P[q].children && |P[q].children| == |P[q].keys| + 1 && q != n
    ensures LeafStep(c, P, s, root, ex, n, es, p, q, r).Ready()
  {
    var P0 := WithEntries(P, n, es);
    assert ParentLinked(P0, s, n);
    assert es == es[..p] + es[p..];
    var Q := LinkChild(LeafSplitPages(P, n, es, p, q, r), q, n, es[p].key, r);
    assert Children(Q, r) == [];
  }

  function InternalStep(c: Codec, P: Pages, s: Shape, root: nat, ex: set<nat>, n: nat, ks: seq<Key>, cs: seq<nat>, p: nat, q: nat, r: nat): Step
    requires p < |ks| && |cs| == |ks| + 1 && q != n && q != r && q !in cs
    requires q in P && P[q].InternalPage? && n in P[q].children && |P[q].children| == |P[q].keys| + 1
  {
    Step(c, P[n := InternalPage(Some(q), ks, cs)],
         LinkChild(InternalSplitPages(P, n, ks, cs, p, q, r), q, n, ks[p], r),
         s, root, ex, n, q, r, ks[p])
  }

  /** The parent of a node is not one of its children, and neither is the node itself. */
  lemma NotOwnChild(c: Codec, P: Pages, s: Shape, root: nat, ex: set<nat>, n: nat, q: nat)
    requires Inv(c, P, s, root, ex) && n in s.level && n != root
    requires n in P && P[n].parent == Some(q)
    ensures q in P && P[q].InternalPage? && n in P[q].children && q != n && q in s.level && s.level[q] > 0
    ensures q !in Children(P, n) && n !in Children(P, n)
  {
    assert ParentLinked(P, s, n);
    var j := IndexOf(Children(P, q), n);
    assert ChildLinked(P, s, q, Children(P, q)[j]);
    forall i | 0 <= i < |Children(P, n)|
      ensures Children(P, n)[i] != q && Children(P, n)[i] != n
    {
      assert ChildLinked(P, s, n, Children(P, n)[i]);
    }
  }

  lemma InternalStepReady(c: Codec, P: Pages, s: Shape, root: nat, ex: set<nat>, n: nat, ks: seq<Key>, cs: seq<nat>, p: nat, q: nat, r: nat)
    requires n in P && |cs| == |ks| + 1
    requires Inv(c, P[n := InternalPage(Some(q), ks, cs)], s, root, ex)
    requires n in s.level && n != root && InternalCut(c, ks, p) && r !in P && r != 0
    ensures q in P && P[q].InternalPage? && n in P[q].children && |P[q].children| == |P[q].keys| + 1 && q != n
    ensures q !in cs
    ensures InternalStep(c, P, s, root, ex, n, ks, cs, p, q, r).Ready()
  {
    var P0 := P[n := InternalPage(Some(q), ks, cs)];
    NotOwnChild(c, P0, s, root, ex, n, q);
    assert Children(P0, n) == cs;
    var Q0 := InternalSplitPages(P, n, ks, cs, p, q, r);
    var Q := LinkChild(Q0, q, n, ks[p], r);
    assert ks == ks[..p] + [ks[p]] + ks[p + 1..];
    assert cs == cs[..p + 1] + cs[p + 1..];
    assert r !in cs by {
      forall i | 0 <= i < |cs|
        ensures cs[i] != r
      {
        assert ChildLinked(P0, s, n, Children(P0, n)[i]);
      }
    }
    InternalHalvesHold(c, P, n, ks, cs, p, q, r);
    InternalOthersKept(c, P, s, root, ex, n, ks, cs, p, q, r);
  }

  lemma InternalHalvesHold(c: Codec, P: Pages, n: nat, ks: seq<Key>, cs: seq<nat>, p: nat, q: nat, r: nat)
    requires n in P && r !in P && |cs| == |ks| + 1 && InternalCut(c, ks, p)
    requires n !in cs && r !in cs
    ensures var Q := InternalSplitPages(P, n, ks, cs, p, q, r);
            && Q.Keys == P.Keys + {r}
            && Q[n] == InternalPage(Some(q), ks[..p], cs[..p + 1])
            && Q[r] == InternalPage(Some(q), ks[p + 1..], cs[p + 1..])
            && InternalHalves(c, InternalPage(Some(q), ks, cs), Q[n], Q[r], ks[p])
  {
    assert n !in cs[..p + 1] && n !in cs[p + 1..];
    assert r !in cs[..p + 1] && r !in cs[p + 1..];
    assert ks == ks[..p] + [ks[p]] + ks[p + 1..];
    assert cs == cs[..p + 1] + cs[p + 1..];
  }

  lemma InternalOthersKept(c: Codec, P: Pages, s: Shape, root: nat, ex: set<nat>, n: nat, ks: seq<Key>, cs: seq<nat>, p: nat, q: nat, r: nat)
    requires n in P && |cs| == |ks| + 1 && q != n
    requires Inv(c, P[n := InternalPage(Some(q), ks, cs)], s, root, ex)
    requires n in s.level && InternalCut(c, ks, p) && r !in P && r !in cs && n !in cs && q !in cs
    ensures var Q := InternalSplitPages(P, n, ks, cs, p, q, r);
            && (q in P ==> Q[q] == P[q])
            && forall id :: id in P && id != n && id != q ==>
                 && SamePayload(P[id], Q[id])
                 && Q[id].parent == (if id in cs[p + 1..] then Some(r) else P[id].parent)
  {
    var P0 := P[n := InternalPage(Some(q), ks, cs)];
    var Q := InternalSplitPages(P, n, ks, cs, p, q, r);
    forall id | id in P && id != n && id != q
      ensures SamePayload(P[id], Q[id])
      ensures Q[id].parent == (if id in cs[p + 1..] then Some(r) else P[id].parent)
    {
      if id in cs[..p + 1] {
        var i :| 0 <= i < p + 1 && cs[i] == id;
        assert ChildLinked(P0, s, n, Children(P0, n)[i]);
      }
      if id in cs[p + 1..] {
        var i :| p + 1 <= i < |cs| && cs[i] == id;
        assert ChildLinked(P0, s, n, Children(P0, n)[i]);
      }
    }
  }

  /** A new root holding one separator that fits a leaf of its own fits its page. */
  lemma NewRootFits(c: Codec, sep: Key)
    requires FitsAlone(c, sep)
    ensures InternalFits(c, [sep])
  {
    assert KeyWeights(c, [sep]) == [KeyWeight(c, sep)];
    assert Total([KeyWeight(c, sep)]) == KeyWeight(c, sep) + Total([]);
  }

  /** A key that survives a cut of its leaf fits a page of its own. */
  lemma CutFitsAlone(c: Codec, es: seq<Entry>, p: nat, i: nat)
    requires LeafCut(c, es, p) && i < |es|
    ensures FitsAlone(c, es[i].key)
  {
    var half, j := if i < p then es[..p] else es[p..], if i < p then i else i - p;
    FitsTogetherFitsAlone(c, half, j);
  }

  lemma FitsTogetherFitsAlone(c: Codec, es: seq<Entry>, j: nat)
    requires LeafFits(c, es) && j < |es|
    ensures FitsAlone(c, es[j].key)
  {
    var ws := LeafWeights(c, es);
    TotalCut(ws, j);
    TotalTake(ws, j);
  }

  /** A right sibling never becomes the first leaf. */
  lemma FirstLeafStays(s: Shape, n: nat, r: nat)
    requires |s.levels| > 0 && |s.levels[0]| > 0
    ensures InsAfter(s.levels[0], n, r)[0] == s.levels[0][0]
  {
  }

  // ----- one more entry in a leaf -----

  lemma AddEntry(c: Codec, P: Pages, s: Shape, root: nat, id: nat, i: nat, e: Entry)
    requires Inv(c, P, s, root, {}) && id in s.level && s.level[id] == 0
    requires i <= |Entries(P, id)| && SortedEntries(InsertAt(Entries(P, id), i, e))
    requires Le(s.lo[id], Fin(e.key)) && Le(Fin(e.key), s.hi[id]) && FitsAlone(c, e.key)
    ensures Inv(c, WithEntries(P, id, InsertAt(Entries(P, id), i, e)), s, root, {id})
  {
    hide LinksOk, KidsOk, ChainOk;
    var es := InsertAt(Entries(P, id), i, e);
    assert LeafBounds(P, s, id) && KeysFitAlone(c, P[id]);
    forall x | x in es
      ensures FitsAlone(c, x.key) && Le(s.lo[id], Fin(x.key)) && Le(Fin(x.key), s.hi[id])
    {
      assert x == e || x in Entries(P, id);
    }
    ReplaceLeaf(c, P, s, root, id, es);
  }

  lemma SortPlace(es: seq<Entry>, e: Entry) returns (i: nat)
    requires SortedEntries(es)
    ensures i <= |es| && StableSort(es + [e]) == InsertAt(es, i, e) && SortedEntries(InsertAt(es, i, e))
  {
    assert (es + [e])[..|es|] == es;
    SortOfSorted(es);
    i := InsertPlace(es, e);
  }

  // ----- pages that are not leaves do not matter to the entries -----

  // ----- no key above half a page -----

  /** Every key of the page gives leaf entries of at most half a page body. */
  predicate HalfKeys(c: Codec, page: Page) {
    && (page.LeafPage? ==> forall i :: 0 <= i < |page.entries| ==> HalfPage(c, page.entries[i].key))
    && (page.InternalPage? ==> forall i :: 0 <= i < |page.keys| ==> HalfPage(c, page.keys[i]))
  }

  ghost predicate AllHalfPages(c: Codec, P: Pages) {
    forall id {:trigger HalfKeys(c, P[id])} :: id in P ==> HalfKeys(c, P[id])
  }

  lemma HalfSubset(c: Codec, page: Page, smaller: Page)
    requires HalfKeys(c, page)
    requires page.LeafPage? && smaller.LeafPage? && forall e :: e in smaller.entries ==> e in page.entries
    ensures HalfKeys(c, smaller)
  {
    forall i | 0 <= i < |smaller.entries|
      ensures HalfPage(c, smaller.entries[i].key)
    {
      assert smaller.entries[i] in page.entries;
    }
  }

  lemma HalfShrink(c: Codec, P: Pages, x: nat, key: Key, rid: Option<RID>)
    requires AllHalfPages(c, P) && x in P && P[x].LeafPage?
    ensures AllHalfPages(c, WithEntries(P, x, Without(P[x].entries, key, rid)))
  {
    var Q := WithEntries(P, x, Without(P[x].entries, key, rid));
    assert HalfKeys(c, P[x]);
    WithoutShrinks(P[x].entries, key, rid);
    HalfSubset(c, P[x], Q[x]);
    forall id | id in Q
      ensures HalfKeys(c, Q[id])
    {
      assert id != x ==> HalfKeys(c, P[id]);
    }
  }

  lemma HalfWithChild(c: Codec, page: Page, n: nat, sep: Key, r: nat)
    requires page.InternalPage? && n in page.children && |page.children| == |page.keys| + 1
    requires HalfKeys(c, page) && HalfPage(c, sep)
    ensures HalfKeys(c, WithChild(page, n, sep, r))
  {
    var i, ks := IndexOf(page.children, n), WithChild(page, n, sep, r).keys;
    forall j | 0 <= j < |ks|
      ensures HalfPage(c, ks[j])
    {
      assert ks[j] == if j < i then page.keys[j] else if j == i then sep else page.keys[j - 1];
    }
  }

  lemma HalfLeafSplit(c: Codec, P: Pages, n: nat, i: nat, e: Entry, p: nat, q: nat, r: nat)
    requires n in P && P[n].LeafPage? && i <= |P[n].entries| && p < |P[n].entries| + 1
    requires AllHalfPages(c, P) && HalfPage(c, e.key)
    ensures AllHalfPages(c, LeafSplitPages(P, n, InsertAt(P[n].entries, i, e), p, q, r))
    ensures HalfPage(c, InsertAt(P[n].entries, i, e)[p].key)
  {
    var es := InsertAt(P[n].entries, i, e);
    var Q := LeafSplitPages(P, n, es, p, q, r);
    assert HalfKeys(c, P[n]);
    forall j | 0 <= j < |es|
      ensures HalfPage(c, es[j].key)
    {
      assert es[j] == if j < i then P[n].entries[j] else if j == i then e else P[n].entries[j - 1];
    }
    forall id | id in Q
      ensures HalfKeys(c, Q[id])
    {
      assert id != n && id != r ==> HalfKeys(c, P[id]);
    }
  }

  lemma HalfInternalSplit(c: Codec, P: Pages, n: nat, ks: seq<Key>, cs: seq<nat>, p: nat, q: nat, r: nat)
    requires p < |ks| && |cs| == |ks| + 1
    requires AllHalfPages(c, P) && forall j :: 0 <= j < |ks| ==> HalfPage(c, ks[j])
    ensures AllHalfPages(c, InternalSplitPages(P, n, ks, cs, p, q, r)) && HalfPage(c, ks[p])
  {
    var Q := InternalSplitPages(P, n, ks, cs, p, q, r);
    forall id | id in Q
      ensures HalfKeys(c, Q[id])
    {
      assert id in P ==> HalfKeys(c, P[id]);
    }
  }

  lemma HalfNewRoot(c: Codec, P: Pages, n: nat, sep: Key, r: nat, g: nat)
    requires AllHalfPages(c, P) && HalfPage(c, sep)
    ensures AllHalfPages(c, P[g := InternalPage(None, [sep], [n, r])])
  {
    var Q := P[g := InternalPage(None, [sep], [n, r])];
    forall id | id in Q
      ensures HalfKeys(c, Q[id])
    {
      assert id != g ==> HalfKeys(c, P[id]);
    }
  }

  // ----- the four splits, as seen by the class -----

  /** A node that stores a parent id is not the root, and its parent is a node that fits. */
  lemma HasParent(c: Codec, P: Pages, s: Shape, root: nat, n: nat, q: nat)
    requires Inv(c, P, s, root, {}) && n in s.level && n in P && P[n].parent == Some(q)
    ensures n != root && q in s.level && q in P && NodeFits(c, P[q])
  {
    hide KidsOk, BoundsOk, ChainOk;
    assert ParentLinked(P, s, n);
  }

  /** What the shape after a split has in common with the shape before. */
  ghost predicate Extends(s: Shape, t: Shape, fresh': set<nat>) {
    && t.level.Keys == s.level.Keys + fresh'
    && |s.levels| > 0 && |t.levels| > 0 && |s.levels[0]| > 0 && |t.levels[0]| > 0
    && t.levels[0][0] == s.levels[0][0]
  }

  /** How a leaf cut divides the interval of n; no other leaf changes. */
  ghost predicate LeafDivided(s: Shape, t: Shape, n: nat, r: nat, sep: Key) {
    && |s.levels| > 0 && |t.levels| > 0 && t.levels[0] == InsAfter(s.levels[0], n, r)
    && s.lo.Keys == s.hi.Keys && t.lo.Keys == t.hi.Keys && s.lo.Keys <= t.lo.Keys && n in s.lo && r in t.lo
    && (forall x :: x in s.levels[0] ==> x in s.lo && t.lo[x] == s.lo[x])
    && (forall x :: x in s.levels[0] && x != n ==> x in s.hi && t.hi[x] == s.hi[x])
    && t.hi[n] == Fin(sep) == t.lo[r] && t.hi[r] == s.hi[n]
  }

  /** The leaves of the tree and their intervals are the same in both shapes. */
  ghost predicate LeavesKept(s: Shape, t: Shape) {
    && |s.levels| > 0 && |t.levels| > 0 && t.levels[0] == s.levels[0]
    && (forall y :: y in s.levels[0] ==> y in s.lo && y in t.lo && t.lo[y] == s.lo[y])
    && (forall y :: y in s.levels[0] ==> y in s.hi && y in t.hi && t.hi[y] == s.hi[y])
  }

  lemma LeafAfter(x: Step)
    requires x.Ready() && x.s.level[x.n] == 0
    ensures LeafDivided(x.s, x.After(), x.n, x.r, x.sep)
  {
    hide LinksOk, KidsOk, SizesOk, BoundsOk, ChainOk, Cut;
    x.Places();
  }

  lemma LeavesAfter(x: Step)
    requires x.Ready() && x.s.level[x.n] > 0
    ensures LeavesKept(x.s, x.After())
  {
    hide LinksOk, KidsOk, SizesOk, BoundsOk, ChainOk, Cut;
    x.Places();
  }

  /** A new root changes nothing for the leaves. */
  lemma LeavesGrown(c: Codec, P: Pages, s: Shape, root: nat, g: nat)
    requires Inv(c, P, s, root, {root}) && g !in P
    ensures LeavesKept(s, GrownShape(s, g))
  {
    hide LinksOk, KidsOk, SizesOk, BoundsOk, ChainOk;
  }

  lemma AfterExtends(x: Step)
    requires x.Ready()
    ensures Extends(x.s, x.After(), {x.r})
    ensures |x.After().levels| == |x.s.levels| && x.q in x.s.level && x.n in x.s.level && x.s.level[x.q] == x.s.level[x.n] + 1
    ensures x.After().level == x.s.level[x.r := x.s.level[x.n]]
  {
    x.Places();
    x.CutLevels();
    hide LinksOk, KidsOk, SizesOk, BoundsOk, ChainOk, Cut;
    var n0 := x.s.levels[0];
    LowestLevelNonEmpty(x);
    FirstLeafStays(x.s, x.n, x.r);
  }

  lemma LowestLevelNonEmpty(x: Step)
    requires x.Ready()
    ensures |x.s.levels| > 0 && |x.s.levels[0]| > 0
  {
    hide LinksOk, SizesOk, BoundsOk, ChainOk, Cut;
    NonEmptyLevel(x.c, x.P, x.s, x.root, x.ex, |x.s.levels| - 1);
  }

  /** No level is empty: a level that is the list of children of a non-empty one has a node. */
  lemma {:induction false} NonEmptyLevel(c: Codec, P: Pages, s: Shape, root: nat, ex: set<nat>, h: nat)
    requires Inv(c, P, s, root, ex) && h < |s.levels| && |s.levels[h]| > 0
    ensures |s.levels[0]| > 0
  {
    hide LinksOk, SizesOk, BoundsOk, ChainOk;
    if h > 0 {
      assert Flat(ChildrenOf(P), s.levels[h]) == s.levels[h - 1];
      assert s.levels[h][0] in s.level;
      assert |Children(P, s.levels[h][0])| > 0;
      NonEmptyLevel(c, P, s, root, ex, h - 1);
    }
  }

  /** A leaf below a parent: its halves are in place, the parent still has to take the right one. */
  lemma LeafSplit(c: Codec, P: Pages, s: Shape, root: nat, n: nat, i: nat, e: Entry, p: nat, q: nat, r: nat) returns (t: Shape)
    requires Inv(c, P, s, root, {}) && n in s.level && s.level[n] == 0 && P[n].parent == Some(q)
    requires i <= |Entries(P, n)| && SortedEntries(InsertAt(Entries(P, n), i, e))
    requires Le(s.lo[n], Fin(e.key)) && Le(Fin(e.key), s.hi[n])
    requires LeafCut(c, InsertAt(Entries(P, n), i, e), p) && r !in P && r != 0
    ensures q in P && P[q].InternalPage? && n in P[q].children && |P[q].children| == |P[q].keys| + 1
    ensures q != n && q in t.level && n in P && P[n].LeafPage? && NodeFits(c, P[q])
    ensures t.level == s.level[r := 0] && |t.levels| == |s.levels| && q in s.level && s.level[q] == 1
    ensures var es := InsertAt(Entries(P, n), i, e);
            var Q := LinkChild(LeafSplitPages(P, n, es, p, q, r), q, n, es[p].key, r);
            && Inv(c, Q, t, root, {q}) && Extends(s, t, {r}) && LeafDivided(s, t, n, r, es[p].key)
            && AllEntries(Q, t.levels[0]) == AllEntries(WithEntries(P, n, es), s.levels[0])
  {
    hide LevelsOk, LinksOk, KidsOk, SizesOk, BoundsOk, ChainOk, Cut;
    var es := InsertAt(Entries(P, n), i, e);
    assert es[i] == e;
    CutFitsAlone(c, es, p, i);
    AddEntry(c, P, s, root, n, i, e);
    HasParent(c, P, s, root, n, q);
    LeafStepReady(c, P, s, root, {n}, n, es, p, q, r);
    var x := LeafStep(c, P, s, root, {n}, n, es, p, q, r);
    x.CutKeepsInv();
    x.CutKeepsEntries();
    AfterExtends(x);
    LeafAfter(x);
    assert {n} - {n} + {q} == {q};
    t := x.After();
  }

  /** The root leaf: halves and a new root above them. */
  lemma RootLeafSplit(c: Codec, P: Pages, s: Shape, n: nat, i: nat, e: Entry, p: nat, r: nat, g: nat) returns (t: Shape)
    requires Inv(c, P, s, n, {}) && n in s.level && s.level[n] == 0
    requires i <= |Entries(P, n)| && SortedEntries(InsertAt(Entries(P, n), i, e))
    requires Le(s.lo[n], Fin(e.key)) && Le(Fin(e.key), s.hi[n])
    requires LeafCut(c, InsertAt(Entries(P, n), i, e), p) && r !in P && g !in P && r != 0 && g != 0 && r != g
    ensures n in P && P[n].LeafPage?
    ensures var es := InsertAt(Entries(P, n), i, e);
            var Q := LeafSplitPages(P, n, es, p, g, r)[g := InternalPage(None, [es[p].key], [n, r])];
            && Inv(c, Q, t, g, {}) && Extends(s, t, {r, g}) && LeafDivided(s, t, n, r, es[p].key)
            && AllEntries(Q, t.levels[0]) == AllEntries(WithEntries(P, n, es), s.levels[0])
  {
    hide Inv, Cut, LeafFits, SortedEntries, LeafHalves, LeafCut;
    var es := InsertAt(Entries(P, n), i, e);
    assert es[i] == e;
    var x := RootLeafStep(c, P, s, n, i, e, p, r, g);
    x.CutKeepsInv();
    AfterExtends(x);
    t := x.After();
    DividedBelow(c, WithEntries(P, n, es), s, n, g, x);
    assert {n, g} - {n} + {g} == {g};
    CutFitsAlone(c, es, p, p);
    NewRootFits(c, es[p].key);
    DropExemption(c, x.Q, t, g, g);
    x.CutKeepsEntries();
  }

  lemma RootLeafStep(c: Codec, P: Pages, s: Shape, n: nat, i: nat, e: Entry, p: nat, r: nat, g: nat) returns (x: Step)
    requires Inv(c, P, s, n, {}) && n in s.level && s.level[n] == 0
    requires i <= |Entries(P, n)| && SortedEntries(InsertAt(Entries(P, n), i, e))
    requires Le(s.lo[n], Fin(e.key)) && Le(Fin(e.key), s.hi[n])
    requires LeafCut(c, InsertAt(Entries(P, n), i, e), p) && r !in P && g !in P && r != 0 && g != 0 && r != g
    ensures n in P && P[n].LeafPage? && 1 <= p < |InsertAt(Entries(P, n), i, e)|
    ensures var es := InsertAt(Entries(P, n), i, e);
            && x.Ready() && x.c == c && x.s == GrownShape(s, g) && x.root == g && x.ex == {n, g} && x.n == n && x.q == g && x.r == r
            && x.sep == es[p].key
            && x.Q == LeafSplitPages(P, n, es, p, g, r)[g := InternalPage(None, [es[p].key], [n, r])]
            && Inv(c, WithEntries(P, n, es), s, n, {n})
            && AllEntries(x.P, x.s.levels[0]) == AllEntries(WithEntries(P, n, es), s.levels[0])
  {
    hide LevelsOk, LinksOk, KidsOk, SizesOk, BoundsOk, ChainOk, Cut, LeafFits, SortedEntries;
    var es := InsertAt(Entries(P, n), i, e);
    var P1, s1 := GrownPages(P, n, g), GrownShape(s, g);
    assert es[i] == e;
    CutFitsAlone(c, es, p, i);
    AddEntry(c, P, s, n, n, i, e);
    GrowOverLeaf(c, P, s, n, es, g);
    LeafStepReady(c, P1, s1, g, {n, g}, n, es, p, g, r);
    x := LeafStep(c, P1, s1, g, {n, g}, n, es, p, g, r);
    SameRootLeafPages(P, n, es, p, r, g);
  }

  lemma DividedBelow(c: Codec, P: Pages, s: Shape, n: nat, g: nat, x: Step)
    requires Inv(c, P, s, n, {n}) && n in s.level && s.level[n] == 0 && g !in P
    requires x.Ready() && x.s == GrownShape(s, g) && x.n == n
    ensures LeafDivided(s, x.After(), n, x.r, x.sep)
  {
    LeavesGrown(c, P, s, n, g);
    LeafAfter(x);
    hide LinksOk, KidsOk, SizesOk, BoundsOk, ChainOk, Cut;
    assert OnLevel(s, n);
    var t := x.After();
    forall y | y in s.levels[0]
      ensures y in s.lo && t.lo[y] == s.lo[y] && (y != n ==> t.hi[y] == s.hi[y])
    {
      assert x.s.lo[y] == s.lo[y];
    }
  }

  lemma KeptBelow(c: Codec, P: Pages, s: Shape, n: nat, g: nat, x: Step)
    requires Inv(c, P, s, n, {n}) && g !in P
    requires x.Ready() && x.s == GrownShape(s, g) && x.n == n && x.P.Keys == P.Keys + {g} && n in x.P && x.P[n].InternalPage?
    ensures LeavesKept(s, x.After())
  {
    hide Inv, Cut;
    NotLeaf(x.c, x.P, x.s, x.root, x.ex, n);
    LeavesAfter(x);
    LeavesGrown(c, P, s, n, g);
  }

  lemma GrowOverLeaf(c: Codec, P: Pages, s: Shape, n: nat, es: seq<Entry>, g: nat)
    requires n in P && P[n].LeafPage? && Inv(c, WithEntries(P, n, es), s, n, {n}) && g !in P && g != 0
    ensures Inv(c, WithEntries(GrownPages(P, n, g), n, es), GrownShape(s, g), g, {n, g})
    ensures AllEntries(WithEntries(GrownPages(P, n, g), n, es), GrownShape(s, g).levels[0])
            == AllEntries(WithEntries(P, n, es), s.levels[0])
  {
    hide LevelsOk, LinksOk, KidsOk, SizesOk, BoundsOk, ChainOk;
    GrowKeepsInv(c, WithEntries(P, n, es), s, n, g);
    assert GrownPages(WithEntries(P, n, es), n, g) == WithEntries(GrownPages(P, n, g), n, es);
    LevelsInPagesOver(c, WithEntries(P, n, es), s, n);
    GrowKeepsEntries(WithEntries(P, n, es), s, n, g);
  }

  lemma SameRootLeafPages(P: Pages, n: nat, es: seq<Entry>, p: nat, r: nat, g: nat)
    requires n in P && P[n].LeafPage? && g !in P && r !in P && r != g && p < |es|
    ensures LinkChild(LeafSplitPages(GrownPages(P, n, g), n, es, p, g, r), g, n, es[p].key, r)
            == LeafSplitPages(P, n, es, p, g, r)[g := InternalPage(None, [es[p].key], [n, r])]
  {
    assert InsertAt([n], 1, r) == [n, r];
    assert InsertAt([], 0, es[p].key) == [es[p].key];
  }

  /** An internal node below a parent. */
  lemma InternalSplit(c: Codec, P: Pages, s: Shape, root: nat, n: nat, ks: seq<Key>, cs: seq<nat>, p: nat, q: nat, r: nat) returns (t: Shape)
    requires n in P && |cs| == |ks| + 1
    requires Inv(c, P[n := InternalPage(Some(q), ks, cs)], s, root, {n})
    requires n in s.level && InternalCut(c, ks, p) && r !in P && r != 0
    ensures q in P && P[q].InternalPage? && n in P[q].children && |P[q].children| == |P[q].keys| + 1
    ensures q != n && NodeFits(c, P[q]) && Extends(s, t, {r})
    ensures q in t.level && q in s.level && |t.levels| == |s.levels| > s.level[q] && LeavesKept(s, t)
    ensures t.level[q] == s.level[q] == s.level[n] + 1 && t.level == s.level[r := s.level[n]]
    ensures var Q0 := InternalSplitPages(P, n, ks, cs, p, q, r);
            && q in Q0 && Q0[q] == P[q] && Q0.Keys == P.Keys + {r}
            && Inv(c, LinkChild(Q0, q, n, ks[p], r), t, root, {q})
            && AllEntries(LinkChild(Q0, q, n, ks[p], r), t.levels[0])
               == AllEntries(P[n := InternalPage(Some(q), ks, cs)], s.levels[0])
  {
    hide LevelsOk, LinksOk, KidsOk, SizesOk, BoundsOk, ChainOk, Cut;
    var P0 := P[n := InternalPage(Some(q), ks, cs)];
    NotRoot(c, P0, s, root, n, q);
    InternalStepReady(c, P, s, root, {n}, n, ks, cs, p, q, r);
    var x := InternalStep(c, P, s, root, {n}, n, ks, cs, p, q, r);
    x.CutKeepsInv();
    x.CutKeepsEntries();
    AfterExtends(x);
    NotLeaf(c, P0, s, root, {n}, n);
    LeavesAfter(x);
    assert {n} - {n} + {q} == {q};
    t := x.After();
  }

  lemma NotLeaf(c: Codec, P: Pages, s: Shape, root: nat, ex: set<nat>, n: nat)
    requires Inv(c, P, s, root, ex) && n in s.level && n in P && P[n].InternalPage?
    ensures s.level[n] > 0
  {
    hide LevelsOk, LinksOk, KidsOk, SizesOk, BoundsOk, ChainOk;
  }

  lemma NotRoot(c: Codec, P: Pages, s: Shape, root: nat, n: nat, q: nat)
    requires Inv(c, P, s, root, {n}) && n in s.level && n in P && P[n].InternalPage? && P[n].parent == Some(q)
    ensures n != root && q in s.level && q in P && NodeFits(c, P[q]) && q != n && s.level[q] < |s.levels|
  {
    hide KidsOk, BoundsOk, ChainOk;
    assert n != root;
    NotOwnChild(c, P, s, root, {n}, n, q);
  }

  /** The root, when it is an internal node: halves and a new root above them. */
  lemma RootInternalSplit(c: Codec, P: Pages, s: Shape, n: nat, ks: seq<Key>, cs: seq<nat>, p: nat, r: nat, g: nat) returns (t: Shape)
    requires n in P && |cs| == |ks| + 1
    requires Inv(c, P[n := InternalPage(None, ks, cs)], s, n, {n})
    requires n in s.level && InternalCut(c, ks, p) && r !in P && g !in P && r != 0 && g != 0 && r != g
    ensures var Q := InternalSplitPages(P, n, ks, cs, p, g, r)[g := InternalPage(None, [ks[p]], [n, r])];
            && Q.Keys == P.Keys + {r, g}
            && Inv(c, Q, t, g, {}) && Extends(s, t, {r, g}) && LeavesKept(s, t)
            && AllEntries(Q, t.levels[0]) == AllEntries(P[n := InternalPage(None, ks, cs)], s.levels[0])
  {
    hide Inv, Cut, InternalSplitPages, InternalHalves, InternalFits;
    var P0 := P[n := InternalPage(None, ks, cs)];
    var x := RootInternalStep(c, P, s, n, ks, cs, p, r, g);
    x.CutKeepsInv();
    AfterExtends(x);
    t := x.After();
    assert {n, g} - {n} + {g} == {g};
    PromotedFits(c, P0, s, n, p);
    NewRootFits(c, ks[p]);
    DropExemption(c, x.Q, t, g, g);
    KeptBelow(c, P0, s, n, g, x);
    x.CutKeepsEntries();
  }

  lemma RootInternalStep(c: Codec, P: Pages, s: Shape, n: nat, ks: seq<Key>, cs: seq<nat>, p: nat, r: nat, g: nat) returns (x: Step)
    requires n in P && |cs| == |ks| + 1
    requires Inv(c, P[n := InternalPage(None, ks, cs)], s, n, {n})
    requires n in s.level && InternalCut(c, ks, p) && r !in P && g !in P && r != 0 && g != 0 && r != g
    ensures x.Ready() && x.c == c && x.s == GrownShape(s, g) && x.root == g && x.ex == {n, g} && x.n == n && x.q == g && x.r == r
    ensures x.P.Keys == P.Keys + {g} && n in x.P && x.P[n] == InternalPage(Some(g), ks, cs)
    ensures x.Q == InternalSplitPages(P, n, ks, cs, p, g, r)[g := InternalPage(None, [ks[p]], [n, r])]
    ensures x.Q.Keys == P.Keys + {r, g}
    ensures AllEntries(x.P, x.s.levels[0]) == AllEntries(P[n := InternalPage(None, ks, cs)], s.levels[0])
  {
    hide LevelsOk, LinksOk, KidsOk, SizesOk, BoundsOk, ChainOk, Cut;
    var P0 := P[n := InternalPage(None, ks, cs)];
    var P1, s1 := GrownPages(P, n, g), GrownShape(s, g);
    GrowKeepsInv(c, P0, s, n, g);
    assert GrownPages(P0, n, g) == P1[n := InternalPage(Some(g), ks, cs)];
    LevelsInPagesOver(c, P0, s, n);
    GrowKeepsEntries(P0, s, n, g);
    InternalStepReady(c, P1, s1, g, {n, g}, n, ks, cs, p, g, r);
    x := InternalStep(c, P1, s1, g, {n, g}, n, ks, cs, p, g, r);
    SameRootPages(P, n, ks, cs, p, r, g);
  }

  lemma LevelsInPagesOver(c: Codec, P: Pages, s: Shape, n: nat)
    requires Inv(c, P, s, n, {n})
    ensures |s.levels| > 0 && forall x :: x in s.levels[0] ==> x in P
  {
    hide LinksOk, KidsOk, SizesOk, BoundsOk, ChainOk;
  }

  lemma PromotedFits(c: Codec, P: Pages, s: Shape, n: nat, p: nat)
    requires Inv(c, P, s, n, {n}) && n in s.level && n in P && P[n].InternalPage? && p < |P[n].keys|
    ensures FitsAlone(c, P[n].keys[p])
  {
    hide LinksOk, KidsOk, BoundsOk, ChainOk;
    assert KeysFitAlone(c, P[n]);
  }

  lemma SameRootPages(P: Pages, n: nat, ks: seq<Key>, cs: seq<nat>, p: nat, r: nat, g: nat)
    requires n in P && g !in P && r !in P && r != g && p < |ks| && |cs| == |ks| + 1 && g !in cs
    ensures var P1 := GrownPages(P, n, g);
            var Q1 := InternalSplitPages(P1, n, ks, cs, p, g, r);
            && g in Q1 && Q1[g] == InternalPage(None, [], [n])
            && LinkChild(Q1, g, n, ks[p], r)
               == InternalSplitPages(P, n, ks, cs, p, g, r)[g := InternalPage(None, [ks[p]], [n, r])]
  {
    var P1 := GrownPages(P, n, g);
    var Q1 := InternalSplitPages(P1, n, ks, cs, p, g, r);
    assert g !in cs[..p + 1] && g !in cs[p + 1..];
    assert InsertAt([n], 1, r) == [n, r];
    assert InsertAt([], 0, ks[p]) == [ks[p]];
  }

  lemma OnlyRootHasNoParent(c: Codec, P: Pages, s: Shape, root: nat, n: nat)
    requires Inv(c, P, s, root, {}) && n in s.level && n in P && P[n].parent == None
    ensures n == root
  {
    hide KidsOk, SizesOk, BoundsOk, ChainOk;
    assert n != root ==> ParentLinked(P, s, n);
  }

  lemma OverfullRoot(c: Codec, P: Pages, s: Shape, root: nat, n: nat)
    requires Inv(c, P, s, root, {n}) && n in s.level && n in P && P[n].parent == None
    ensures n == root
  {
    hide KidsOk, SizesOk, BoundsOk, ChainOk;
    assert n != root ==> ParentLinked(P, s, n);
  }

  lemma HalfInsert(c: Codec, P: Pages, n: nat, i: nat, e: Entry)
    requires n in P && P[n].LeafPage? && i <= |P[n].entries|
    requires AllHalfPages(c, P) && HalfPage(c, e.key)
    ensures AllHalfPages(c, WithEntries(P, n, InsertAt(P[n].entries, i, e)))
  {
    var es := InsertAt(P[n].entries, i, e);
    var Q := WithEntries(P, n, es);
    assert HalfKeys(c, P[n]);
    forall j | 0 <= j < |es|
      ensures HalfPage(c, es[j].key)
    {
      assert es[j] == if j < i then P[n].entries[j] else if j == i then e else P[n].entries[j - 1];
    }
    forall id | id in Q
      ensures HalfKeys(c, Q[id])
    {
      assert id != n ==> HalfKeys(c, P[id]);
    }
  }

  /** An overfull leaf without an admissible cut holds a key above half a page, or the RID is too large. */
  lemma LeafCannotCut(c: Codec, P: Pages, n: nat, i: nat, e: Entry)
    requires n in P && P[n].LeafPage? && i <= |P[n].entries| && LeafFits(c, P[n].entries)
    requires !LeafFits(c, InsertAt(P[n].entries, i, e))
    requires forall q: nat :: !LeafCut(c, InsertAt(P[n].entries, i, e), q)
    ensures !(AllHalfPages(c, P) && HalfPage(c, e.key) && RidInRange(e.rid))
  {
    if AllHalfPages(c, P) && HalfPage(c, e.key) && RidInRange(e.rid) {
      assert HalfKeys(c, P[n]);
      var q := LeafCutExists(c, P[n].entries, i, e);
    }
  }

  lemma ChildrenInPages(c: Codec, P: Pages, s: Shape, root: nat, n: nat)
    requires Inv(c, P, s, root, {n}) && n in P && P[n].InternalPage? && n in s.level
    ensures forall x :: x in P[n].children ==> x in P
  {
    hide LevelsOk, KidsOk, SizesOk, BoundsOk, ChainOk;
    forall x | x in P[n].children
      ensures x in P
    {
      var j := IndexOf(Children(P, n), x);
      assert ChildLinked(P, s, n, Children(P, n)[j]);
    }
  }
}
