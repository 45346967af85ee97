/**
 The moves of an insert: for each write, what becomes of the pages, of the tree that a descent
 can reach and of the leaf chain, all together.

 P are the pages, T the pages of the reachable tree, s its shape and b what stands behind its
 leaves. A leaf takes one more entry; a leaf or an internal node is cut, below a parent or at
 the root; a separator is entered in its parent, or given up for good. Each lemma says that the
 tree is valid afterwards, or valid but for one parent that still has to take a separator, and
 what the entries along the chain are.
 */
module BPlusMoves {
  import opened Common
  import opened BPlusPages
  import opened BPlusInvariant
  import opened BPlusSplit
  import opened BPlusLemmas
  import opened BPlusSteps
  import opened BPlusPrune
  import opened BPlusChain
  import opened BPlusCascade

  /** Pages are numbered without gaps from 1. */
  ghost predicate Numbered(P: Pages, n: nat) {
    n > 0 && forall id: nat :: id in P <==> 0 < id < n
  }

  /** An insert into q is pending: seen with its new child r behind n, the tree is valid but for the size of q. */
  ghost predicate Open(c: Codec, T: Pages, s: Shape, root: nat, q: nat, n: nat, sep: Key, r: nat) {
    && q in T && T[q].InternalPage? && NodeFits(c, T[q])
    && n in T[q].children && |T[q].children| == |T[q].keys| + 1
    && Inv(c, LinkChild(T, q, n, sep, r), s, root, {q})
  }

  lemma OneMorePage(P: Pages, Q: Pages, n: nat)
    requires Numbered(P, n) && Q.Keys == P.Keys + {n}
    ensures Numbered(Q, n + 1)
  {
    forall id: nat
      ensures id in Q <==> 0 < id < n + 1
    {
      assert id in Q.Keys <==> id in P.Keys + {n};
    }
  }

  lemma SamePages(P: Pages, Q: Pages, n: nat)
    requires Numbered(P, n) && Q.Keys == P.Keys
    ensures Numbered(Q, n)
  {
    forall id: nat
      ensures id in Q <==> 0 < id < n
    {
      assert id in Q.Keys <==> id in P.Keys;
    }
  }

  // ----- a leaf takes one more entry -----

  lemma LeafWritten(c: Codec, P: Pages, T: Pages, s: Shape, root: nat, b: Behind, n: nat, i: nat, e: Entry)
    requires View(P, T, s, b) && Inv(c, T, s, root, {}) && n in s.level && s.level[n] == 0
    requires i <= |Entries(T, n)| && SortedEntries(InsertAt(Entries(T, n), i, e)) && Takes(s.lo[n], s.hi[n], e.key)
    requires LeafFits(c, InsertAt(Entries(T, n), i, e))
    ensures n in P && P[n].LeafPage? && n in T && T[n].LeafPage? && Entries(P, n) == Entries(T, n)
    ensures var es := InsertAt(Entries(T, n), i, e);
            && View(WithEntries(P, n, es), WithEntries(T, n, es), s, b) && Inv(c, WithEntries(T, n, es), s, root, {})
            && (OrderedChain(P, s, b) && NothingSmaller(P, b, n, e.key) ==> OrderedChain(WithEntries(P, n, es), s, b))
            && (AllHalfPages(c, T) && HalfPage(c, e.key) ==> AllHalfPages(c, WithEntries(T, n, es)))
  {
    var es := InsertAt(Entries(T, n), i, e);
    assert es[i] == e;
    LeafInTree(c, T, s, root, n);
    hide *;
    FitsTogetherFitsAlone(c, es, i);
    TakesWithin(s.lo[n], s.hi[n], e.key);
    AddEntry(c, T, s, root, n, i, e);
    LeafIs(T, n);
    WriteLeafView(P, T, s, b, n, es);
    LeafIs(P, n);
    FitsNow(c, T, n, es);
    DropExemption(c, WithEntries(T, n, es), s, root, n);
    if OrderedChain(P, s, b) && NothingSmaller(P, b, n, e.key) {
      ChainDistinct(P, T, s, b);
      AddKeepsOrder(P, s, b, n, i, e);
    }
    if AllHalfPages(c, T) && HalfPage(c, e.key) {
      HalfInsert(c, T, n, i, e);
    }
  }

  lemma TakesWithin(lo: Bound, hi: Bound, key: Key)
    requires Takes(lo, hi, key)
    ensures Le(lo, Fin(key)) && Le(Fin(key), hi)
  {
  }

  lemma LeafIs(P: Pages, n: nat)
    requires n in P && P[n].LeafPage?
    ensures Entries(P, n) == P[n].entries
  {
  }

  lemma FitsNow(c: Codec, T: Pages, n: nat, es: seq<Entry>)
    requires n in T && T[n].LeafPage? && LeafFits(c, es)
    ensures n in WithEntries(T, n, es) && NodeFits(c, WithEntries(T, n, es)[n])
  {
  }

  lemma ChainDistinct(P: Pages, T: Pages, s: Shape, b: Behind)
    requires View(P, T, s, b)
    ensures |s.levels| > 0 && NoDup(Chain(b, s.levels[0])) && Linked(P, Chain(b, s.levels[0]))
  {
  }

  // ----- a leaf is cut -----

  lemma LeafSplitDone(c: Codec, P: Pages, T: Pages, s: Shape, root: nat, b: Behind, n: nat, i: nat, e: Entry, p: nat, q: nat, r: nat)
    returns (t: Shape)
    requires View(P, T, s, b) && Inv(c, T, s, root, {}) && n in s.level && s.level[n] == 0 && n in T && T[n].parent == Some(q)
    requires i <= |Entries(T, n)| && SortedEntries(InsertAt(Entries(T, n), i, e)) && Takes(s.lo[n], s.hi[n], e.key)
    requires LeafCut(c, InsertAt(Entries(T, n), i, e), p) && r !in P && r != 0
    ensures n in P && P[n].LeafPage? && T[n].LeafPage? && Entries(P, n) == Entries(T, n) && p < |InsertAt(Entries(T, n), i, e)|
    ensures var es := InsertAt(Entries(T, n), i, e);
            var Q, U, b' := LeafSplitPages(P, n, es, p, q, r), LeafSplitPages(T, n, es, p, q, r), BehindRight(b, n, r);
            && Open(c, U, t, root, q, n, es[p].key, r) && View(Q, U, t, b') && Q.Keys == P.Keys + {r}
            && Carries(WithEntries(P, n, es), s, b, Q, t, b') && (NothingBehind(s, b) ==> NothingBehind(t, b'))
            && (AllHalfPages(c, T) && HalfPage(c, e.key) ==> AllHalfPages(c, U) && HalfPage(c, es[p].key))
            && (Stuck(c, T, s.level, |s.levels|, q, n, es[p].key) <==> Stuck(c, U, t.level, |t.levels|, q, n, es[p].key))
    ensures |t.levels| == |s.levels|
  {
    LeafInTree(c, T, s, root, n);
    NotReached(P, T, s, b, r);
    hide *;
    var es := InsertAt(Entries(T, n), i, e);
    LeafIs(T, n);
    TakesWithin(s.lo[n], s.hi[n], e.key);
    CutWithin(c, es, p);
    InsertLength(Entries(T, n), i, e);
    t := LeafSplit(c, T, s, root, n, i, e, p, q, r);
    LeafSplitView(c, P, T, s, root, b, n, i, e, p, q, r, t);
    OpenAfterLeaf(c, T, t, root, n, es, p, q, r);
    ExtendsKeys(s, t, {r});
    SplitKeysLeaf(P, n, es, p, q, r);
    if AllHalfPages(c, T) && HalfPage(c, e.key) {
      HalfLeafSplit(c, T, n, i, e, p, q, r);
    }
    LeafSplitLeavesAbove(c, T, s.level, |s.levels|, n, es, p, q, r, es[p].key);
  }

  lemma NotReached(P: Pages, T: Pages, s: Shape, b: Behind, r: nat)
    requires View(P, T, s, b) && r !in P
    ensures r !in T && r !in s.level
  {
  }

  lemma CutWithin(c: Codec, es: seq<Entry>, p: nat)
    requires LeafCut(c, es, p)
    ensures 1 <= p < |es|
  {
  }

  lemma InsertLength(es: seq<Entry>, i: nat, e: Entry)
    requires i <= |es|
    ensures |InsertAt(es, i, e)| == |es| + 1
  {
  }

  lemma OpenAfterLeaf(c: Codec, T: Pages, t: Shape, root: nat, n: nat, es: seq<Entry>, p: nat, q: nat, r: nat)
    requires n in T && T[n].LeafPage? && p < |es| && q in T && T[q].InternalPage? && NodeFits(c, T[q]) && q != n && q != r && r !in T
    requires n in T[q].children && |T[q].children| == |T[q].keys| + 1
    requires Inv(c, LinkChild(LeafSplitPages(T, n, es, p, q, r), q, n, es[p].key, r), t, root, {q})
    ensures Open(c, LeafSplitPages(T, n, es, p, q, r), t, root, q, n, es[p].key, r)
  {
    hide Inv, NodeFits;
  }

  lemma ExtendsKeys(s: Shape, t: Shape, more: set<nat>)
    requires Extends(s, t, more)
    ensures t.level.Keys == s.level.Keys + more
  {
  }

  lemma SplitKeysLeaf(P: Pages, n: nat, es: seq<Entry>, p: nat, q: nat, r: nat)
    requires n in P && P[n].LeafPage? && p <= |es|
    ensures LeafSplitPages(P, n, es, p, q, r).Keys == P.Keys + {r}
  {
  }

  /** The root leaf is cut, below a new root. */
  lemma RootLeafSplitDone(c: Codec, P: Pages, T: Pages, s: Shape, b: Behind, n: nat, i: nat, e: Entry, p: nat, r: nat, g: nat)
    returns (t: Shape)
    requires View(P, T, s, b) && Inv(c, T, s, n, {}) && n in s.level && s.level[n] == 0 && n in T
    requires i <= |Entries(T, n)| && SortedEntries(InsertAt(Entries(T, n), i, e)) && Takes(s.lo[n], s.hi[n], e.key)
    requires LeafCut(c, InsertAt(Entries(T, n), i, e), p) && r !in P && g !in P && r != 0 && g != 0 && r != g
    ensures n in P && P[n].LeafPage? && T[n].LeafPage? && Entries(P, n) == Entries(T, n) && p < |InsertAt(Entries(T, n), i, e)|
    ensures var es := InsertAt(Entries(T, n), i, e);
            var top := InternalPage(None, [es[p].key], [n, r]);
            var Q, U, b' := LeafSplitPages(P, n, es, p, g, r)[g := top], LeafSplitPages(T, n, es, p, g, r)[g := top], BehindRight(b, n, r);
            && Inv(c, U, t, g, {}) && View(Q, U, t, b') && Q.Keys == P.Keys + {r, g}
            && Carries(WithEntries(P, n, es), s, b, Q, t, b') && (NothingBehind(s, b) ==> NothingBehind(t, b'))
            && (AllHalfPages(c, T) && HalfPage(c, e.key) ==> AllHalfPages(c, U))
  {
    hide *;
    var m;
    m, t := RootLeafCut(c, P, T, s, b, n, i, e, p, r, g);
    var es := InsertAt(Entries(T, n), i, e);
    var top := InternalPage(None, [es[p].key], [n, r]);
    var Q, U, b' := LeafSplitPages(P, n, es, p, g, r), LeafSplitPages(T, n, es, p, g, r), BehindRight(b, n, r);
    NodeView(Q, U, m, b', g, top, t);
    CarriesOn(WithEntries(P, n, es), s, b, Q, m, b', Q[g := top], t, b');
    if AllHalfPages(c, T) && HalfPage(c, e.key) {
      HalfLeafSplit(c, T, n, i, e, p, g, r);
      HalfNewRoot(c, U, n, es[p].key, r, g);
    }
  }

  /** Its two halves, before the new root is written. */
  lemma RootLeafCut(c: Codec, P: Pages, T: Pages, s: Shape, b: Behind, n: nat, i: nat, e: Entry, p: nat, r: nat, g: nat)
    returns (m: Shape, t: Shape)
    requires View(P, T, s, b) && Inv(c, T, s, n, {}) && n in s.level && s.level[n] == 0 && n in T
    requires i <= |Entries(T, n)| && SortedEntries(InsertAt(Entries(T, n), i, e)) && Takes(s.lo[n], s.hi[n], e.key)
    requires LeafCut(c, InsertAt(Entries(T, n), i, e), p) && r !in P && g !in P && r != 0 && g != 0 && r != g
    ensures n in P && P[n].LeafPage? && T[n].LeafPage? && Entries(P, n) == Entries(T, n) && p < |InsertAt(Entries(T, n), i, e)|
    ensures T[n].entries == Entries(T, n) && p < |Entries(T, n)| + 1
    ensures var es := InsertAt(Entries(T, n), i, e);
            var Q, U, b' := LeafSplitPages(P, n, es, p, g, r), LeafSplitPages(T, n, es, p, g, r), BehindRight(b, n, r);
            && Inv(c, U[g := InternalPage(None, [es[p].key], [n, r])], t, g, {}) && View(Q, U, m, b') && Q.Keys == P.Keys + {r}
            && Carries(WithEntries(P, n, es), s, b, Q, m, b') && (NothingBehind(s, b) ==> NothingBehind(m, b'))
    ensures LeavesKept(m, t) && t.level.Keys == m.level.Keys + {g}
  {
    LeafInTree(c, T, s, n, n);
    NotReached(P, T, s, b, r);
    NotReached(P, T, s, b, g);
    hide *;
    var es := InsertAt(Entries(T, n), i, e);
    LeafIs(T, n);
    TakesWithin(s.lo[n], s.hi[n], e.key);
    CutWithin(c, es, p);
    InsertLength(Entries(T, n), i, e);
    t := RootLeafSplit(c, T, s, n, i, e, p, r, g);
    ExtendsKeys(s, t, {r, g});
    m := WithoutTop(s, t, n, r, g, es[p].key);
    LeafSplitView(c, P, T, s, n, b, n, i, e, p, g, r, m);
    SplitKeysLeaf(P, n, es, p, g, r);
  }

  /** The shape between the cut of a root leaf and the new root. */
  lemma WithoutTop(s: Shape, t: Shape, n: nat, r: nat, g: nat, sep: Key) returns (m: Shape)
    requires LeafDivided(s, t, n, r, sep) && t.level.Keys == s.level.Keys + {r, g} && g !in s.level && g != r
    ensures m.level.Keys == s.level.Keys + {r} && m.level.Keys + {g} == t.level.Keys
    ensures LeafDivided(s, m, n, r, sep) && LeavesKept(m, t)
  {
    m := t.(level := t.level - {g});
    InsAfterMembers(s.levels[0], n, r);
  }

  lemma {:induction false} InsAfterMembers(s: seq<nat>, n: nat, r: nat)
    ensures forall x :: x in InsAfter(s, n, r) ==> x in s || x == r
  {
    if s != [] && s[0] != n {
      InsAfterMembers(s[1..], n, r);
    }
  }

  // ----- a separator goes to the parent -----

  /** There is room for it. */
  lemma Entered(c: Codec, P: Pages, T: Pages, s: Shape, root: nat, b: Behind, q: nat, n: nat, sep: Key, r: nat)
    requires View(P, T, s, b) && Open(c, T, s, root, q, n, sep, r) && InternalFits(c, WithChild(T[q], n, sep, r).keys)
    ensures q in P && P[q] == T[q]
    ensures var page := WithChild(T[q], n, sep, r);
            && View(P[q := page], T[q := page], s, b) && Inv(c, T[q := page], s, root, {}) && P[q := page].Keys == P.Keys
            && Carries(P, s, b, P[q := page], s, b)
            && (AllHalfPages(c, T) && HalfPage(c, sep) ==> AllHalfPages(c, T[q := page]))
  {
    var page := WithChild(T[q], n, sep, r);
    NodeShown(P, T, s, b, q);
    OpenParts(c, T, s, root, q, n, sep, r);
    NewKeys(T[q], n, sep, r);
    LeavesSame(c, LinkChild(T, q, n, sep, r), s, root, q);
    hide *;
    NodeView(P, T, s, b, q, page, s);
    NodeFitsNow(c, page);
    DropExemption(c, T[q := page], s, root, q);
    if AllHalfPages(c, T) && HalfPage(c, sep) {
      HalfEntered(c, T, q, n, sep, r);
    }
  }

  lemma NodeShown(P: Pages, T: Pages, s: Shape, b: Behind, q: nat)
    requires View(P, T, s, b) && q in T && T[q].InternalPage?
    ensures q in P && P[q] == T[q] && q in s.level
  {
    assert SameNode(P[q], T[q]);
  }

  lemma OpenParts(c: Codec, T: Pages, s: Shape, root: nat, q: nat, n: nat, sep: Key, r: nat)
    requires Open(c, T, s, root, q, n, sep, r)
    ensures Inv(c, T[q := WithChild(T[q], n, sep, r)], s, root, {q}) && q in T[q := WithChild(T[q], n, sep, r)]
  {
  }

  lemma LeavesSame(c: Codec, V: Pages, s: Shape, root: nat, q: nat)
    requires Inv(c, V, s, root, {q})
    ensures LeavesKept(s, s) && s.level.Keys == s.level.Keys + (if q in s.level then {q} else {})
  {
    hide KindsOk, LinksOk, KidsOk, SizesOk, BoundsOk, ChainOk;
  }

  lemma NodeFitsNow(c: Codec, page: Page)
    requires page.InternalPage? && InternalFits(c, page.keys) && |page.keys| >= 1
    ensures NodeFits(c, page)
  {
  }

  lemma HalfEntered(c: Codec, T: Pages, q: nat, n: nat, sep: Key, r: nat)
    requires q in T && T[q].InternalPage? && n in T[q].children && |T[q].children| == |T[q].keys| + 1
    requires AllHalfPages(c, T) && HalfPage(c, sep)
    ensures AllHalfPages(c, T[q := WithChild(T[q], n, sep, r)])
  {
    var page := WithChild(T[q], n, sep, r);
    assert HalfKeys(c, T[q]);
    HalfWithChild(c, T[q], n, sep, r);
    var U := T[q := page];
    forall id | id in U
      ensures HalfKeys(c, U[id])
    {
      assert id != q ==> HalfKeys(c, T[id]);
    }
  }

  /** There is no room and no cut: the separator is given up, and with it the way to r. */
  lemma GivenUp(c: Codec, P: Pages, T: Pages, s: Shape, root: nat, b: Behind, q: nat, n: nat, sep: Key, r: nat)
    returns (U: Pages, t: Shape, d: Behind)
    requires View(P, T, s, b) && Open(c, T, s, root, q, n, sep, r)
    ensures View(P, U, t, d) && Inv(c, U, t, root, {})
    ensures Carries(P, s, b, P, t, d) && Chain(d, t.levels[0]) == Chain(b, s.levels[0])
  {
    NodeShown(P, T, s, b, q);
    AboveLeaves(c, LinkChild(T, q, n, sep, r), s, root, q);
    var x := Lose(c, T, s, root, q, n, sep, r);
    hide Inv, Flat, NodeFits, Below, OrderedChain, Chain;
    LossView(P, b, x);
    U, t, d := x.Kept(), x.Rest(), BehindEdge(b, x);
  }

  lemma AboveLeaves(c: Codec, V: Pages, s: Shape, root: nat, q: nat)
    requires Inv(c, V, s, root, {q}) && q in s.level && q in V && V[q].InternalPage?
    ensures s.level[q] > 0
  {
    hide LevelsOk, LinksOk, KidsOk, SizesOk, BoundsOk, ChainOk;
  }

  // ----- an internal node is cut -----

  lemma NewKeys(page: Page, n: nat, sep: Key, r: nat)
    requires page.InternalPage? && n in page.children && |page.children| == |page.keys| + 1
    ensures var x := WithChild(page, n, sep, r);
            && x.InternalPage? && |x.children| == |x.keys| + 1 && |x.keys| == |page.keys| + 1 && x.parent == page.parent
            && x.keys == WithKey(page, n, sep)
  {
  }

  lemma CutOf(c: Codec, ks: seq<Key>, p: nat)
    requires IsInternalCut(c, ks, p)
    ensures InternalCut(c, ks, p) && p < |ks|
  {
  }

  lemma ChildrenShown(c: Codec, P: Pages, T: Pages, s: Shape, root: nat, b: Behind, n: nat, page: Page)
    requires View(P, T, s, b) && n in T && n in s.level && page.InternalPage? && Inv(c, T[n := page], s, root, {n})
    ensures forall x :: x in page.children ==> x in P
  {
    ChildrenInPages(c, T[n := page], s, root, n);
  }

  lemma OpenAfterInternal(c: Codec, T: Pages, t: Shape, root: nat, n: nat, ks: seq<Key>, cs: seq<nat>, p: nat, q: nat, r: nat)
    requires p < |ks| && |cs| == |ks| + 1 && q in T && T[q].InternalPage? && NodeFits(c, T[q])
    requires n in T[q].children && |T[q].children| == |T[q].keys| + 1
    requires var U := InternalSplitPages(T, n, ks, cs, p, q, r);
             q in U && U[q] == T[q] && Inv(c, LinkChild(U, q, n, ks[p], r), t, root, {q})
    ensures Open(c, InternalSplitPages(T, n, ks, cs, p, q, r), t, root, q, n, ks[p], r)
  {
    hide Inv, NodeFits, InternalSplitPages;
  }

  lemma HalfChild(c: Codec, T: Pages, n: nat, left: nat, sep: Key, right: nat)
    requires n in T && T[n].InternalPage? && left in T[n].children && |T[n].children| == |T[n].keys| + 1
    requires AllHalfPages(c, T) && HalfPage(c, sep)
    ensures var ks := WithChild(T[n], left, sep, right).keys; forall j :: 0 <= j < |ks| ==> HalfPage(c, ks[j])
  {
    assert HalfKeys(c, T[n]);
    HalfWithChild(c, T[n], left, sep, right);
  }

  /** A node that can be cut is stuck exactly when the node above it is, on the pages after the cut. */
  lemma StuckMovesUp(c: Codec, T: Pages, s: Shape, root: nat, n: nat, left: nat, sep: Key, ks: seq<Key>, cs: seq<nat>, p: nat, q: nat, r: nat)
    requires n in T && T[n].InternalPage? && T[n].parent == Some(q) && left in T[n].children && |T[n].children| == |T[n].keys| + 1
    requires |cs| == |ks| + 1 && ks == WithKey(T[n], left, sep) && !InternalFits(c, ks) && IsInternalCut(c, ks, p)
    requires Inv(c, T[n := InternalPage(Some(q), ks, cs)], s, root, {n}) && r !in T && r !in s.level
    requires q in s.level && n in s.level && s.level[q] == s.level[n] + 1 < |s.levels|
    ensures p < |ks|
    ensures Stuck(c, T, s.level, |s.levels|, n, left, sep) <==>
            Stuck(c, InternalSplitPages(T, n, ks, cs, p, q, r), s.level[r := s.level[n]], |s.levels|, q, n, ks[p])
  {
    hide Inv, InternalSplitPages, InternalFits;
    StuckAbove(c, T, s.level, |s.levels|, n, left, sep, p);
    InternalSplitLeavesAbove(c, T, s, root, n, ks, cs, p, q, r, ks[p]);
  }

  /** The node n is open for `right`, and overfull as (ks, cs) with it; the cut opens its parent q. */
  lemma InternalSplitDone(c: Codec, P: Pages, T: Pages, s: Shape, root: nat, b: Behind, n: nat, left: nat, sep: Key, right: nat,
                          ks: seq<Key>, cs: seq<nat>, p: nat, q: nat, r: nat) returns (t: Shape)
    requires View(P, T, s, b) && Open(c, T, s, root, n, left, sep, right) && r !in P && r != 0
    requires WithChild(T[n], left, sep, right) == InternalPage(Some(q), ks, cs) && !InternalFits(c, ks) && IsInternalCut(c, ks, p)
    ensures |cs| == |ks| + 1 && p < |ks| && n in P && forall x :: x in cs ==> x in P
    ensures var Q, U := InternalSplitPages(P, n, ks, cs, p, q, r), InternalSplitPages(T, n, ks, cs, p, q, r);
            && Open(c, U, t, root, q, n, ks[p], r) && View(Q, U, t, b) && Q.Keys == P.Keys + {r}
            && Carries(P, s, b, Q, t, b) && (NothingBehind(s, b) ==> NothingBehind(t, b))
            && (AllHalfPages(c, T) && HalfPage(c, sep) ==> AllHalfPages(c, U) && HalfPage(c, ks[p]))
            && (Stuck(c, T, s.level, |s.levels|, n, left, sep) <==> Stuck(c, U, t.level, |t.levels|, q, n, ks[p]))
    ensures |t.levels| == |s.levels| && n in s.level && q in t.level && t.level[q] == s.level[n] + 1 < |s.levels|
  {
    OpenPage(c, T, s, root, n, left, sep, right);
    NodeShown(P, T, s, b, n);
    NotReached(P, T, s, b, r);
    ChainDistinct(P, T, s, b);
    OpenParts(c, T, s, root, n, left, sep, right);
    NewKeys(T[n], left, sep, right);
    CutOf(c, ks, p);
    hide *;
    ChildrenShown(c, P, T, s, root, b, n, InternalPage(Some(q), ks, cs));
    t := InternalSplit(c, T, s, root, n, ks, cs, p, q, r);
    ExtendsKeys(s, t, {r});
    OpenAfterInternal(c, T, t, root, n, ks, cs, p, q, r);
    InternalSplitView(P, T, s, b, n, ks, cs, p, q, r, t);
    StuckMovesUp(c, T, s, root, n, left, sep, ks, cs, p, q, r);
    if AllHalfPages(c, T) && HalfPage(c, sep) {
      HalfChild(c, T, n, left, sep, right);
      HalfInternalSplit(c, T, n, ks, cs, p, q, r);
    }
    SomeLevels(s, t);
  }

  lemma OpenPage(c: Codec, T: Pages, s: Shape, root: nat, q: nat, n: nat, sep: Key, r: nat)
    requires Open(c, T, s, root, q, n, sep, r)
    ensures q in T && T[q].InternalPage? && n in T[q].children && |T[q].children| == |T[q].keys| + 1 && NodeFits(c, T[q])
  {
  }

  lemma SomeLevels(s: Shape, t: Shape)
    requires LeavesKept(s, t)
    ensures |s.levels| > 0 && |t.levels| > 0
  {
  }

  /** The same for the root, below a new root. */
  lemma RootInternalSplitDone(c: Codec, P: Pages, T: Pages, s: Shape, root: nat, b: Behind, n: nat, left: nat, sep: Key, right: nat,
                              ks: seq<Key>, cs: seq<nat>, p: nat, r: nat, g: nat) returns (t: Shape)
    requires View(P, T, s, b) && Open(c, T, s, root, n, left, sep, right)
    requires r !in P && g !in P && r != 0 && g != 0 && r != g
    requires WithChild(T[n], left, sep, right) == InternalPage(None, ks, cs) && !InternalFits(c, ks) && IsInternalCut(c, ks, p)
    ensures |cs| == |ks| + 1 && p < |ks| && n in P && forall x :: x in cs ==> x in P
    ensures var top := InternalPage(None, [ks[p]], [n, r]);
            var Q, U := InternalSplitPages(P, n, ks, cs, p, g, r)[g := top], InternalSplitPages(T, n, ks, cs, p, g, r)[g := top];
            && Inv(c, U, t, g, {}) && View(Q, U, t, b) && Q.Keys == P.Keys + {r, g}
            && Carries(P, s, b, Q, t, b) && (NothingBehind(s, b) ==> NothingBehind(t, b))
            && (AllHalfPages(c, T) && HalfPage(c, sep) ==> AllHalfPages(c, U))
    ensures !Stuck(c, T, s.level, |s.levels|, n, left, sep)
  {
    hide *;
    OpenPage(c, T, s, root, n, left, sep, right);
    NodeShown(P, T, s, b, n);
    NewKeys(T[n], left, sep, right);
    var m;
    m, t := RootInternalCut(c, P, T, s, root, b, n, left, sep, right, ks, cs, p, r, g);
    var top := InternalPage(None, [ks[p]], [n, r]);
    var Q, U := InternalSplitPages(P, n, ks, cs, p, g, r), InternalSplitPages(T, n, ks, cs, p, g, r);
    NodeView(Q, U, m, b, g, top, t);
    CarriesOn(P, s, b, Q, m, b, Q[g := top], t, b);
    NotStuckAtRoot(c, T, s, n, left, sep, ks, p);
    HalfRootSplit(c, T, n, left, sep, right, ks, cs, p, r, g);
  }

  lemma HalfRootSplit(c: Codec, T: Pages, n: nat, left: nat, sep: Key, right: nat, ks: seq<Key>, cs: seq<nat>, p: nat, r: nat, g: nat)
    requires n in T && T[n].InternalPage? && left in T[n].children && |T[n].children| == |T[n].keys| + 1
    requires WithChild(T[n], left, sep, right) == InternalPage(None, ks, cs) && |cs| == |ks| + 1 && p < |ks|
    ensures AllHalfPages(c, T) && HalfPage(c, sep) ==>
              AllHalfPages(c, InternalSplitPages(T, n, ks, cs, p, g, r)[g := InternalPage(None, [ks[p]], [n, r])])
  {
    hide *;
    if AllHalfPages(c, T) && HalfPage(c, sep) {
      HalfChild(c, T, n, left, sep, right);
      HalfInternalSplit(c, T, n, ks, cs, p, g, r);
      HalfNewRoot(c, InternalSplitPages(T, n, ks, cs, p, g, r), n, ks[p], r, g);
    }
  }

  lemma RootInternalCut(c: Codec, P: Pages, T: Pages, s: Shape, root: nat, b: Behind, n: nat, left: nat, sep: Key, right: nat,
                        ks: seq<Key>, cs: seq<nat>, p: nat, r: nat, g: nat) returns (m: Shape, t: Shape)
    requires View(P, T, s, b) && Open(c, T, s, root, n, left, sep, right)
    requires r !in P && g !in P && r != 0 && g != 0 && r != g
    requires WithChild(T[n], left, sep, right) == InternalPage(None, ks, cs) && !InternalFits(c, ks) && IsInternalCut(c, ks, p)
    ensures |cs| == |ks| + 1 && p < |ks| && n in P && forall x :: x in cs ==> x in P
    ensures var Q, U := InternalSplitPages(P, n, ks, cs, p, g, r), InternalSplitPages(T, n, ks, cs, p, g, r);
            && Inv(c, U[g := InternalPage(None, [ks[p]], [n, r])], t, g, {}) && View(Q, U, m, b) && Q.Keys == P.Keys + {r}
            && Carries(P, s, b, Q, m, b) && (NothingBehind(s, b) ==> NothingBehind(m, b))
    ensures LeavesKept(m, t) && t.level.Keys == m.level.Keys + {g}
  {
    OpenPage(c, T, s, root, n, left, sep, right);
    NodeShown(P, T, s, b, n);
    NotReached(P, T, s, b, r);
    NotReached(P, T, s, b, g);
    OpenParts(c, T, s, root, n, left, sep, right);
    NewKeys(T[n], left, sep, right);
    CutOf(c, ks, p);
    hide *;
    OverfullRoot(c, T[n := InternalPage(None, ks, cs)], s, root, n);
    ChildrenShown(c, P, T, s, root, b, n, InternalPage(None, ks, cs));
    t := RootInternalSplit(c, T, s, n, ks, cs, p, r, g);
    ExtendsKeys(s, t, {r, g});
    m := KeptWithoutTop(s, t, r, g);
    InternalSplitView(P, T, s, b, n, ks, cs, p, g, r, m);
  }

  lemma KeptWithoutTop(s: Shape, t: Shape, r: nat, g: nat) returns (m: Shape)
    requires LeavesKept(s, t) && t.level.Keys == s.level.Keys + {r, g} && g !in s.level && g != r
    ensures m.level.Keys == s.level.Keys + {r} && m.level.Keys + {g} == t.level.Keys
    ensures LeavesKept(s, m) && LeavesKept(m, t) && |m.levels| > 0
  {
    m := t.(level := t.level - {g});
  }

  lemma NotStuckAtRoot(c: Codec, T: Pages, s: Shape, n: nat, left: nat, sep: Key, ks: seq<Key>, p: nat)
    requires n in s.level && n in T && T[n].InternalPage? && T[n].parent == None && left in T[n].children
    requires |T[n].children| == |T[n].keys| + 1 && ks == WithKey(T[n], left, sep) && !InternalFits(c, ks) && IsInternalCut(c, ks, p)
    ensures !Stuck(c, T, s.level, |s.levels|, n, left, sep)
  {
    StuckAbove(c, T, s.level, |s.levels|, n, left, sep, p);
  }

  /** With no admissible cut some key exceeds half a page. */
  lemma CannotCut(c: Codec, T: Pages, s: Shape, n: nat, left: nat, sep: Key, right: nat)
    requires n in s.level && n in T && T[n].InternalPage? && left in T[n].children && |T[n].children| == |T[n].keys| + 1 && NodeFits(c, T[n])
    requires var ks := WithChild(T[n], left, sep, right).keys; !InternalFits(c, ks) && forall p: nat :: !InternalCut(c, ks, p)
    ensures !(AllHalfPages(c, T) && HalfPage(c, sep))
    ensures Stuck(c, T, s.level, |s.levels|, n, left, sep)
  {
    NewKeys(T[n], left, sep, right);
    NoCutIsStuck(c, T, s.level, |s.levels|, n, left, sep);
    if AllHalfPages(c, T) && HalfPage(c, sep) {
      assert HalfKeys(c, T[n]);
      var q := InternalCutExists(c, T[n].keys, IndexOf(T[n].children, left), sep);
    }
  }

  // ----- what an insert writes -----

  /** With one more separator the node overflows and has no admissible cut. */
  ghost predicate NoRoomAt(c: Codec, P: Pages, q: nat, n: nat, sep: Key) {
    && q in P && P[q].InternalPage? && n in P[q].children && |P[q].children| == |P[q].keys| + 1
    && !InternalFits(c, WithKey(P[q], n, sep)) && forall p: nat :: !InternalCut(c, WithKey(P[q], n, sep), p)
  }

  /** The pages after a root leaf was cut: two leaves and a root over them. */
  function RootCutPages(P: Pages, n: nat, es: seq<Entry>, p: nat, r: nat): Pages
    requires n in P && P[n].LeafPage? && p < |es|
  {
    LeafSplitPages(P, n, es, p, r + 1, r)[r + 1 := InternalPage(None, [es[p].key], [n, r])]
  }

  /**
   The pages and the place of the root after an insert that put the entries es into leaf n, where that
   is settled at the leaf: it fits, it is the root, or its parent cannot take the separator.
   */
  ghost predicate LeafWrites(c: Codec, P: Pages, root: nat, count: nat, n: nat, es: seq<Entry>, Q: Pages, root': nat, count': nat) {
    && n in P && P[n].LeafPage?
    && if LeafFits(c, es) then Q == WithEntries(P, n, es) && root' == root && count' == count
       else exists p: nat :: IsLeafCut(c, es, p) && CutWrites(c, P, root, count, n, es, p, Q, root', count')
  }

  ghost predicate CutWrites(c: Codec, P: Pages, root: nat, count: nat, n: nat, es: seq<Entry>, p: nat, Q: Pages, root': nat, count': nat)
    requires n in P && P[n].LeafPage?
  {
    && p < |es|
    && match P[n].parent
       case None => Q == RootCutPages(P, n, es, p, count) && root' == count + 1 && count' == count + 2
       case Some(q) =>
         NoRoomAt(c, P, q, n, es[p].key) ==> Q == LeafSplitPages(P, n, es, p, q, count) && root' == root && count' == count + 1
  }

  /** What an entry more in one leaf means for the entries along the chain. */
  lemma AfterInsert(c: Codec, P: Pages, T: Pages, s: Shape, root: nat, b: Behind, n: nat, i: nat, e: Entry,
                    Q: Pages, U: Pages, t: Shape, top: nat, d: Behind)
    requires View(P, T, s, b) && Inv(c, T, s, root, {}) && View(Q, U, t, d) && Inv(c, U, t, top, {})
    requires n in s.level && s.level[n] == 0 && n in P && P[n].LeafPage? && i <= |P[n].entries| && SortedEntries(InsertAt(P[n].entries, i, e))
    requires Carries(WithEntries(P, n, InsertAt(P[n].entries, i, e)), s, b, Q, t, d)
    ensures |s.levels| > 0 && |t.levels| > 0
    ensures multiset(AllEntries(Q, Chain(d, t.levels[0]))) == multiset(AllEntries(P, Chain(b, s.levels[0]))) + multiset{e}
    ensures OrderedChain(P, s, b) ==> (OrderedChain(Q, t, d) <==> NothingSmaller(P, b, n, e.key))
  {
    LeafInTree(c, T, s, root, n);
    ChainDistinct(P, T, s, b);
    hide Inv, Flat, AllEntries, Chain, OrderedChain, NothingSmaller, NoDup, Linked;
    LeafOnChain(b, s.levels[0], n);
    ChainGrows(P, Chain(b, s.levels[0]), n, i, e);
    if OrderedChain(P, s, b) && NothingSmaller(P, b, n, e.key) {
      AddKeepsOrder(P, s, b, n, i, e);
    }
    if !NothingSmaller(P, b, n, e.key) {
      AddBreaksOrder(P, b, s.levels[0], n, i, e);
      if OrderedChain(Q, t, d) {
        ShowsSame(Q, U);
        OrderedIsSorted(c, Q, U, t, top, {}, d);
      }
    }
  }

  /** Whether the cascade gets stuck can be read off the pages as well as off the tree. */
  lemma StuckShown(c: Codec, P: Pages, T: Pages, s: Shape, b: Behind, root: nat, q: nat, n: nat, sep: Key)
    requires View(P, T, s, b) && Inv(c, T, s, root, {}) && q in s.level && s.level[q] > 0
    ensures Stuck(c, P, s.level, |s.levels|, q, n, sep) <==> Stuck(c, T, s.level, |s.levels|, q, n, sep)
  {
    forall x | x in s.level && s.level[x] >= s.level[q]
      ensures x in P && x in T && P[x] == T[x]
    {
      NodeIsShown(c, P, T, s, b, root, x);
    }
    StuckFrame(c, T, s.level, P, s.level, |s.levels|, q, n, sep);
  }

  lemma NodeIsShown(c: Codec, P: Pages, T: Pages, s: Shape, b: Behind, root: nat, x: nat)
    requires View(P, T, s, b) && Inv(c, T, s, root, {}) && x in s.level && s.level[x] > 0
    ensures x in P && x in T && P[x] == T[x] && T[x].InternalPage?
  {
    hide LevelsOk, LinksOk, KidsOk, SizesOk, BoundsOk, ChainOk, Linked;
    assert SameNode(P[x], T[x]);
  }

  lemma ParentOf(c: Codec, T: Pages, s: Shape, root: nat, n: nat)
    requires Inv(c, T, s, root, {}) && n in s.level && n in T && T[n].parent.Some?
    ensures T[n].parent.value in s.level && s.level[T[n].parent.value] == s.level[n] + 1 && T[n].parent.value in T
  {
    hide SizesOk, BoundsOk, KidsOk, ChainOk;
    assert ParentLinked(T, s, n);
    var q := T[n].parent.value;
    assert ChildLinked(T, s, q, Children(T, q)[IndexOf(Children(T, q), n)]);
  }

  // ----- small steps between the writes -----

  lemma CarriesStart(P: Pages, s: Shape, b: Behind, Q: Pages, t: Shape, d: Behind, first: nat)
    requires Carries(P, s, b, Q, t, d) && StartsWith(s, first)
    ensures StartsWith(t, first)
  {
    hide OrderedChain, AllEntries, Chain;
  }

  lemma IsTheLeafCut(c: Codec, es: seq<Entry>, p: nat)
    requires LeafCut(c, es, p) && forall q: nat :: LeafCut(c, es, q) ==> Before(|es|, p, q)
    ensures IsLeafCut(c, es, p) && 1 <= p < |es|
  {
  }

  lemma IsTheInternalCut(c: Codec, ks: seq<Key>, p: nat)
    requires InternalCut(c, ks, p) && forall q: nat :: InternalCut(c, ks, q) ==> Before(|ks| - 1, p, q)
    ensures IsInternalCut(c, ks, p) && p < |ks|
  {
  }

  /** The leaf overflows as es and can be cut, but the cascade above it gets stuck. */
  ghost predicate StuckAt(c: Codec, T: Pages, s: Shape, n: nat, es: seq<Entry>) {
    && !LeafFits(c, es) && n in T && T[n].parent.Some?
    && exists p: nat :: IsLeafCut(c, es, p) && Stuck(c, T, s.level, |s.levels|, T[n].parent.value, n, es[p].key)
  }

  lemma StuckAtCut(c: Codec, T: Pages, s: Shape, n: nat, es: seq<Entry>, p: nat)
    requires !LeafFits(c, es) && n in T && IsLeafCut(c, es, p)
    ensures p < |es|
    ensures StuckAt(c, T, s, n, es) <==> T[n].parent.Some? && Stuck(c, T, s.level, |s.levels|, T[n].parent.value, n, es[p].key)
  {
    hide Stuck, LeafFits;
    OnlyLeafCut(c, es, p);
  }

  lemma NotStuckWithoutCut(c: Codec, T: Pages, s: Shape, n: nat, es: seq<Entry>)
    requires forall p: nat :: !LeafCut(c, es, p)
    ensures !StuckAt(c, T, s, n, es)
  {
    hide Stuck, LeafFits, LeafCut;
  }

  /** The parent is the same page before and after the leaf below it is cut. */
  lemma SameParentPage(c: Codec, P: Pages, T: Pages, s: Shape, b: Behind, n: nat, es: seq<Entry>, p: nat, q: nat, r: nat)
    requires View(P, T, s, b) && n in T && T[n].LeafPage? && n in P && P[n].LeafPage? && p < |es| && r !in P
    requires q in LeafSplitPages(T, n, es, p, q, r) && LeafSplitPages(T, n, es, p, q, r)[q].InternalPage?
    ensures NoRoomAt(c, P, q, n, es[p].key) ==> NoRoomAt(c, LeafSplitPages(T, n, es, p, q, r), q, n, es[p].key)
  {
    if q in P && P[q].InternalPage? {
      NotReached(P, T, s, b, r);
      assert q in T && SameNode(P[q], T[q]);
    }
  }

  lemma SplitWrites(c: Codec, P: Pages, root: nat, count: nat, n: nat, es: seq<Entry>, p: nat, q: nat, Q: Pages, root': nat, count': nat)
    requires n in P && P[n].LeafPage? && P[n].parent == Some(q) && !LeafFits(c, es) && IsLeafCut(c, es, p) && p < |es|
    requires NoRoomAt(c, P, q, n, es[p].key) ==> Q == LeafSplitPages(P, n, es, p, q, count) && root' == root && count' == count + 1
    ensures LeafWrites(c, P, root, count, n, es, Q, root', count')
  {
    hide NoRoomAt, IsLeafCut, LeafFits, LeafSplitPages;
    assert CutWrites(c, P, root, count, n, es, p, Q, root', count');
  }

  lemma RootWrites(c: Codec, P: Pages, root: nat, count: nat, n: nat, es: seq<Entry>, p: nat, Q: Pages, root': nat, count': nat)
    requires n in P && P[n].LeafPage? && P[n].parent == None && !LeafFits(c, es) && IsLeafCut(c, es, p) && p < |es|
    requires Q == RootCutPages(P, n, es, p, count) && root' == count + 1 && count' == count + 2
    ensures LeafWrites(c, P, root, count, n, es, Q, root', count')
  {
    hide NoRoomAt, IsLeafCut, LeafFits, LeafSplitPages;
    assert CutWrites(c, P, root, count, n, es, p, Q, root', count');
  }

  lemma FitsWrites(c: Codec, P: Pages, root: nat, count: nat, n: nat, es: seq<Entry>)
    requires n in P && P[n].LeafPage? && LeafFits(c, es)
    ensures LeafWrites(c, P, root, count, n, es, WithEntries(P, n, es), root, count)
  {
  }

  lemma LeafSplitIs(P: Pages, n: nat, es: seq<Entry>, p: nat, q: nat, r: nat)
    requires n in P && P[n].LeafPage? && p <= |es|
    ensures LeafSplitPages(P, n, es, p, q, r) == P[n := LeafPage(Some(q), Some(r), es[..p])][r := LeafPage(Some(q), P[n].next, es[p..])]
  {
  }

  lemma RootCutIs(P: Pages, n: nat, es: seq<Entry>, p: nat, r: nat)
    requires n in P && P[n].LeafPage? && p < |es|
    ensures RootCutPages(P, n, es, p, r) == LeafSplitPages(P, n, es, p, r + 1, r)[r + 1 := InternalPage(None, [es[p].key], [n, r])]
  {
  }

  lemma TwoMorePages(P: Pages, Q: Pages, n: nat)
    requires Numbered(P, n) && Q.Keys == P.Keys + {n, n + 1}
    ensures Numbered(Q, n + 2)
  {
    forall id: nat
      ensures id in Q <==> 0 < id < n + 2
    {
      assert id in Q.Keys <==> id in P.Keys + {n, n + 1};
    }
  }

  /** With room for the separator the cascade ends. */
  lemma RoomIsNotStuck(c: Codec, T: Pages, s: Shape, q: nat, n: nat, sep: Key, r: nat)
    requires q in T && T[q].InternalPage? && n in T[q].children && |T[q].children| == |T[q].keys| + 1
    requires InternalFits(c, WithChild(T[q], n, sep, r).keys)
    ensures !Stuck(c, T, s.level, |s.levels|, q, n, sep) && !NoRoomAt(c, T, q, n, sep)
  {
    NewKeys(T[q], n, sep, r);
  }

  lemma CutIsRoom(c: Codec, T: Pages, q: nat, n: nat, sep: Key, r: nat, p: nat)
    requires q in T && T[q].InternalPage? && n in T[q].children && |T[q].children| == |T[q].keys| + 1
    requires InternalCut(c, WithChild(T[q], n, sep, r).keys, p)
    ensures !NoRoomAt(c, T, q, n, sep)
  {
    NewKeys(T[q], n, sep, r);
  }

  lemma WithEntriesIs(P: Pages, n: nat, es: seq<Entry>)
    requires n in P && P[n].LeafPage?
    ensures WithEntries(P, n, es) == P[n := LeafPage(P[n].parent, P[n].next, es)] && WithEntries(P, n, es).Keys == P.Keys
  {
  }

  lemma CarriesItself(P: Pages, T: Pages, s: Shape, b: Behind)
    requires View(P, T, s, b)
    ensures Carries(P, s, b, P, s, b)
  {
  }

  lemma NotStuckAtTop(c: Codec, T: Pages, s: Shape, n: nat, es: seq<Entry>)
    requires n in T && T[n].parent.None?
    ensures !StuckAt(c, T, s, n, es)
  {
  }
}
