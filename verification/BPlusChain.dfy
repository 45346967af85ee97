/**
 The leaf chain on disk and the tree above it. Every leaf of the tree is on the chain, but the
 chain may hold more: when a separator could not be entered, the new leaves it was to lead to
 stay between the last leaf before them and the next leaf of the tree. They are stored behind
 that leaf: a walk along the chain finds them, a descent does not.

 Searching needs the keys to ascend along the whole chain. They do as long as what stands
 behind a leaf lies within the interval of that leaf and ascends together with it; an insert
 keeps that exactly when nothing behind the leaf it goes to is smaller.
 */
module BPlusChain {
  import opened Common
  import opened BPlusPages
  import opened BPlusInvariant
  import opened BPlusSplit
  import opened BPlusLemmas
  import opened BPlusSteps
  import opened BPlusPrune

  /** For leaves of the tree, the leaves behind them that no node leads to. */
  type Behind = map<nat, seq<nat>>

  function Hidden(b: Behind, x: nat): seq<nat> {
    if x in b then b[x] else []
  }

  function Segment(b: Behind): nat -> seq<nat> {
    (x: nat) => [x] + Hidden(b, x)
  }

  /** The whole chain, from the leaves L of the tree and what stands behind each. */
  function Chain(b: Behind, L: seq<nat>): seq<nat> {
    Flat(Segment(b), L)
  }

  /** Two pages differ at most in where a leaf points. */
  predicate SameNode(a: Page, b: Page) {
    && a.parent == b.parent
    && (a.LeafPage? ==> b.LeafPage? && a.entries == b.entries)
    && (a.InternalPage? ==> a == b)
  }

  /** T is the part of the pages that a descent can reach. */
  ghost predicate Shows(P: Pages, T: Pages) {
    T.Keys <= P.Keys && forall id {:trigger SameNode(P[id], T[id])} :: id in T ==> SameNode(P[id], T[id])
  }

  /** The leaves of T hold in P what they hold in T. */
  ghost predicate SameEntries(P: Pages, T: Pages) {
    forall id :: id in T && T[id].LeafPage? ==> id in P && P[id].LeafPage? && P[id].entries == T[id].entries
  }

  lemma ShowsSame(P: Pages, T: Pages)
    requires Shows(P, T)
    ensures SameEntries(P, T)
  {
    forall id | id in T && T[id].LeafPage?
      ensures id in P && P[id].LeafPage? && P[id].entries == T[id].entries
    {
      assert SameNode(P[id], T[id]);
    }
  }

  ghost predicate NextOk(P: Pages, chain: seq<nat>, i: nat)
    requires i < |chain|
  {
    chain[i] in P && P[chain[i]].LeafPage? && P[chain[i]].next == if i + 1 < |chain| then Some(chain[i + 1]) else None
  }

  ghost predicate Linked(P: Pages, chain: seq<nat>) {
    NoDup(chain) && forall i {:trigger NextOk(P, chain, i)} :: 0 <= i < |chain| ==> NextOk(P, chain, i)
  }

  /** What stands behind leaf x continues its entries and stays in its interval. */
  ghost predicate SegmentOk(P: Pages, s: Shape, b: Behind, x: nat)
    requires x in s.lo && x in s.hi
  {
    && KeySorted(AllEntries(P, Segment(b)(x)))
    && forall e :: e in AllEntries(P, Hidden(b, x)) ==> Le(s.lo[x], Fin(e.key)) && Le(Fin(e.key), s.hi[x])
  }

  ghost predicate OrderedChain(P: Pages, s: Shape, b: Behind) {
    && |s.levels| > 0 && (forall x :: x in s.levels[0] ==> x in s.lo && x in s.hi)
    && forall x {:trigger SegmentOk(P, s, b, x)} :: x in s.levels[0] ==> SegmentOk(P, s, b, x)
  }

  // ----- entries along the chain -----

  lemma EntriesAppend(P: Pages, a: seq<nat>, d: seq<nat>)
    ensures AllEntries(P, a + d) == AllEntries(P, a) + AllEntries(P, d)
  {
    FlatAppend(EntriesOf(P), a, d);
  }

  lemma EntriesOne(P: Pages, x: nat)
    ensures AllEntries(P, [x]) == Entries(P, x)
  {
    assert [x][1..] == [];
    assert Flat(EntriesOf(P), [x]) == EntriesOf(P)(x) + [];
  }

  lemma ChainAround(b: Behind, L: seq<nat>, i: nat)
    requires i < |L|
    ensures Chain(b, L) == Chain(b, L[..i]) + ([L[i]] + Hidden(b, L[i])) + Chain(b, L[i + 1..])
  {
    FlatAround(Segment(b), L, i);
  }

  lemma ChainStep(b: Behind, L: seq<nat>, i: nat)
    requires i < |L|
    ensures Chain(b, L[..i + 1]) == Chain(b, L[..i]) + ([L[i]] + Hidden(b, L[i]))
  {
    assert L[..i + 1] == L[..i] + [L[i]];
    FlatAppend(Segment(b), L[..i], [L[i]]);
    assert [L[i]][1..] == [];
    assert Flat(Segment(b), [L[i]]) == Segment(b)(L[i]) + [];
  }

  lemma EntriesStep(P: Pages, b: Behind, L: seq<nat>, i: nat)
    requires i < |L|
    ensures AllEntries(P, Chain(b, L[..i + 1])) == AllEntries(P, Chain(b, L[..i])) + AllEntries(P, Segment(b)(L[i]))
  {
    ChainStep(b, L, i);
    EntriesAppend(P, Chain(b, L[..i]), Segment(b)(L[i]));
  }

  /** Every entry in or behind leaf i lies in its interval. */
  lemma SegmentInside(c: Codec, P: Pages, T: Pages, s: Shape, root: nat, ex: set<nat>, b: Behind, i: nat)
    requires Inv(c, T, s, root, ex) && SameEntries(P, T) && OrderedChain(P, s, b) && i < |s.levels[0]|
    ensures s.levels[0][i] in s.level
    ensures forall e :: e in AllEntries(P, Segment(b)(s.levels[0][i])) ==>
              Le(s.lo[s.levels[0][i]], Fin(e.key)) && Le(Fin(e.key), s.hi[s.levels[0][i]])
  {
    var x := s.levels[0][i];
    LeafKeys(c, T, s, root, ex, i);
    LeafHere(c, P, T, s, root, ex, i);
    hide Inv, Flat;
    assert SegmentOk(P, s, b, x);
    EntriesAppend(P, [x], Hidden(b, x));
    EntriesOne(P, x);
  }

  lemma LeafHere(c: Codec, P: Pages, T: Pages, s: Shape, root: nat, ex: set<nat>, i: nat)
    requires Inv(c, T, s, root, ex) && SameEntries(P, T) && i < |s.levels[0]|
    ensures s.levels[0][i] in T && s.levels[0][i] in P && P[s.levels[0][i]].LeafPage? && T[s.levels[0][i]].LeafPage?
    ensures Entries(P, s.levels[0][i]) == Entries(T, s.levels[0][i])
    ensures s.lo.Keys == s.level.Keys && s.hi.Keys == s.level.Keys
  {
    hide LinksOk, KidsOk, SizesOk, BoundsOk, ChainOk;
    assert s.levels[0][i] in s.level;
  }

  /** Leaf i ends where the next one begins. */
  lemma LeafEnds(c: Codec, T: Pages, s: Shape, root: nat, ex: set<nat>, i: nat)
    requires Inv(c, T, s, root, ex) && i < |s.levels[0]|
    ensures s.levels[0][i] in s.level && s.lo.Keys == s.level.Keys && s.hi.Keys == s.level.Keys
    ensures IntervalOk(s, s.levels[0][i])
    ensures i + 1 < |s.levels[0]| ==> s.levels[0][i + 1] in s.level && s.hi[s.levels[0][i]] == s.lo[s.levels[0][i + 1]]
  {
    hide LinksOk, KidsOk, SizesOk;
    assert LeafLinked(T, s, i);
  }

  lemma {:induction false} ChainKeysBefore(c: Codec, P: Pages, T: Pages, s: Shape, root: nat, ex: set<nat>, b: Behind, i: nat)
    requires Inv(c, T, s, root, ex) && SameEntries(P, T) && OrderedChain(P, s, b) && i < |s.levels[0]|
    ensures s.levels[0][i] in s.level && s.lo.Keys == s.level.Keys
    ensures forall e :: e in AllEntries(P, Chain(b, s.levels[0][..i])) ==> Le(Fin(e.key), s.lo[s.levels[0][i]])
  {
    hide Inv, Flat, SegmentOk;
    LeafEnds(c, T, s, root, ex, i);
    if i > 0 {
      ChainKeysBefore(c, P, T, s, root, ex, b, i - 1);
      SegmentInside(c, P, T, s, root, ex, b, i - 1);
      LeafEnds(c, T, s, root, ex, i - 1);
      EntriesStep(P, b, s.levels[0], i - 1);
    } else {
      assert AllEntries(P, Chain(b, s.levels[0][..0])) == [] by { NothingBefore(P, b, s.levels[0]); }
    }
  }

  lemma NothingBefore(P: Pages, b: Behind, L: seq<nat>)
    ensures AllEntries(P, Chain(b, L[..0])) == []
  {
  }

  lemma KeysConcat(a: seq<Entry>, d: seq<Entry>, mid: Bound)
    requires KeySorted(a) && KeySorted(d) && !mid.PosInf?
    requires forall e :: e in a ==> Le(Fin(e.key), mid)
    requires forall e :: e in d ==> Le(mid, Fin(e.key))
    ensures KeySorted(a + d)
  {
    forall i: nat, j: nat | i < j < |a + d|
      ensures (a + d)[i].key <= (a + d)[j].key
    {
      if i < |a| <= j {
        assert a[i] in a && d[j - |a|] in d;
      }
    }
  }

  lemma {:induction false} ChainPrefixSorted(c: Codec, P: Pages, T: Pages, s: Shape, root: nat, ex: set<nat>, b: Behind, i: nat)
    requires Inv(c, T, s, root, ex) && SameEntries(P, T) && OrderedChain(P, s, b) && i <= |s.levels[0]|
    ensures KeySorted(AllEntries(P, Chain(b, s.levels[0][..i])))
  {
    hide Inv, Flat;
    if i > 0 {
      var x := s.levels[0][i - 1];
      ChainPrefixSorted(c, P, T, s, root, ex, b, i - 1);
      ChainKeysBefore(c, P, T, s, root, ex, b, i - 1);
      SegmentInside(c, P, T, s, root, ex, b, i - 1);
      LeafEnds(c, T, s, root, ex, i - 1);
      EntriesStep(P, b, s.levels[0], i - 1);
      assert SegmentOk(P, s, b, x);
      KeysConcat(AllEntries(P, Chain(b, s.levels[0][..i - 1])), AllEntries(P, Segment(b)(x)), s.lo[x]);
    } else {
      NothingBefore(P, b, s.levels[0]);
    }
  }

  /** In an ordered chain the keys ascend from the first leaf to the last. */
  lemma OrderedIsSorted(c: Codec, P: Pages, T: Pages, s: Shape, root: nat, ex: set<nat>, b: Behind)
    requires Inv(c, T, s, root, ex) && SameEntries(P, T) && OrderedChain(P, s, b)
    ensures KeySorted(AllEntries(P, Chain(b, s.levels[0])))
  {
    hide Inv, Flat, SegmentOk;
    ChainPrefixSorted(c, P, T, s, root, ex, b, |s.levels[0]|);
    assert s.levels[0][..|s.levels[0]|] == s.levels[0];
  }

  // ----- sorted sequences in parts -----

  ghost predicate AllBelow(a: seq<Entry>, d: seq<Entry>) {
    forall e, f :: e in a && f in d ==> e.key <= f.key
  }

  lemma SortedParts(a: seq<Entry>, d: seq<Entry>)
    ensures KeySorted(a + d) <==> KeySorted(a) && KeySorted(d) && AllBelow(a, d)
  {
    var s := a + d;
    if KeySorted(s) {
      assert forall i :: 0 <= i < |a| ==> s[i] == a[i];
      assert forall i :: 0 <= i < |d| ==> s[|a| + i] == d[i];
      forall e, f | e in a && f in d
        ensures e.key <= f.key
      {
        var i :| 0 <= i < |a| && a[i] == e;
        var j :| 0 <= j < |d| && d[j] == f;
        assert s[i].key <= s[|a| + j].key;
      }
    }
    if KeySorted(a) && KeySorted(d) && AllBelow(a, d) {
      forall i: nat, j: nat | i < j < |s|
        ensures s[i].key <= s[j].key
      {
        if i < |a| <= j {
          assert a[i] in a && d[j - |a|] in d;
        }
      }
    }
  }

  lemma SortedByKey(es: seq<Entry>)
    requires SortedEntries(es)
    ensures KeySorted(es)
  {
    forall i, j | 0 <= i < j < |es|
      ensures es[i].key <= es[j].key
    {
      assert EntryLe(es[i], es[j]);
    }
  }

  // ----- one entry more in a leaf of the tree -----

  /** Nothing behind leaf x is smaller than key. */
  ghost predicate NothingSmaller(P: Pages, b: Behind, x: nat, key: Key) {
    forall e :: e in AllEntries(P, Hidden(b, x)) ==> key <= e.key
  }

  lemma EntriesFrame(P: Pages, Q: Pages, ids: seq<nat>)
    requires forall x :: x in ids ==> Entries(P, x) == Entries(Q, x)
    ensures AllEntries(P, ids) == AllEntries(Q, ids)
  {
    FlatFrame(EntriesOf(P), EntriesOf(Q), ids);
  }

  /** A page of the chain stands in one segment only. */
  lemma OneSegment(b: Behind, L: seq<nat>, y: nat, x: nat, z: nat)
    requires NoDup(Chain(b, L)) && x in L && y in L && x != y && z in Segment(b)(x)
    ensures z !in Segment(b)(y)
  {
    var i := IndexOf(L, y);
    var k := IndexOf(L, x);
    ChainAround(b, L, i);
    if k < i {
      assert L[..i][k] == x;
      MemberFlat(Segment(b), L[..i], x, z);
    } else {
      assert L[i + 1..][k - i - 1] == x;
      MemberFlat(Segment(b), L[i + 1..], x, z);
    }
    NotTwice(Chain(b, L[..i]), Segment(b)(y), Chain(b, L[i + 1..]), z);
  }

  lemma NotBehindItself(b: Behind, L: seq<nat>, x: nat)
    requires NoDup(Chain(b, L)) && x in L
    ensures x !in Hidden(b, x)
  {
    var i := IndexOf(L, x);
    ChainAround(b, L, i);
    var a, h, d := Chain(b, L[..i]), Hidden(b, x), Chain(b, L[i + 1..]);
    assert a + ([x] + h) + d == (a + [x]) + h + d;
    NotTwice(a + [x], h, d, x);
  }

  lemma SegmentEntries(P: Pages, b: Behind, x: nat)
    ensures AllEntries(P, Segment(b)(x)) == Entries(P, x) + AllEntries(P, Hidden(b, x))
  {
    EntriesAppend(P, [x], Hidden(b, x));
    EntriesOne(P, x);
  }

  lemma AddKeepsOrder(P: Pages, s: Shape, b: Behind, x: nat, i: nat, e: Entry)
    requires OrderedChain(P, s, b) && x in s.levels[0] && NoDup(Chain(b, s.levels[0]))
    requires x in P && P[x].LeafPage? && i <= |P[x].entries| && SortedEntries(InsertAt(P[x].entries, i, e))
    requires NothingSmaller(P, b, x, e.key)
    ensures OrderedChain(WithEntries(P, x, InsertAt(P[x].entries, i, e)), s, b)
  {
    hide Flat, SegmentOk;
    var es := InsertAt(P[x].entries, i, e);
    var Q := WithEntries(P, x, es);
    forall y | y in s.levels[0]
      ensures y in s.lo && y in s.hi && SegmentOk(Q, s, b, y)
    {
      assert SegmentOk(P, s, b, y);
      if y != x {
        OneSegment(b, s.levels[0], y, x, x);
        SegmentFrame(P, Q, s, s, b, b, y);
      } else {
        NotBehindItself(b, s.levels[0], x);
        SegmentGrows(P, Q, s, b, x, i, e);
      }
    }
  }

  lemma SegmentFrame(P: Pages, Q: Pages, s: Shape, t: Shape, b: Behind, d: Behind, y: nat)
    requires y in s.lo && y in s.hi && SegmentOk(P, s, b, y) && Hidden(d, y) == Hidden(b, y)
    requires y in t.lo && y in t.hi && t.lo[y] == s.lo[y] && t.hi[y] == s.hi[y]
    requires forall z :: z in Segment(b)(y) ==> Entries(P, z) == Entries(Q, z)
    ensures SegmentOk(Q, t, d, y)
  {
    EntriesFrame(P, Q, Segment(b)(y));
    EntriesFrame(P, Q, Hidden(b, y));
  }

  lemma SegmentGrows(P: Pages, Q: Pages, s: Shape, b: Behind, x: nat, i: nat, e: Entry)
    requires x in s.lo && x in s.hi && SegmentOk(P, s, b, x) && x !in Hidden(b, x)
    requires x in P && P[x].LeafPage? && i <= |P[x].entries| && SortedEntries(InsertAt(P[x].entries, i, e))
    requires Q == WithEntries(P, x, InsertAt(P[x].entries, i, e)) && NothingSmaller(P, b, x, e.key)
    ensures SegmentOk(Q, s, b, x)
  {
    hide Flat;
    var es, hidden := InsertAt(P[x].entries, i, e), AllEntries(P, Hidden(b, x));
    EntriesFrame(P, Q, Hidden(b, x));
    SegmentEntries(P, b, x);
    SegmentEntries(Q, b, x);
    SortedParts(P[x].entries, hidden);
    SortedParts(es, hidden);
    SortedByKey(es);
    forall f | f in es
      ensures f == e || f in P[x].entries
    {
    }
  }

  /** A smaller key behind the leaf spoils the order for good. */
  lemma AddBreaksOrder(P: Pages, b: Behind, L: seq<nat>, x: nat, i: nat, e: Entry)
    requires x in L && NoDup(Chain(b, L)) && x in P && P[x].LeafPage? && i <= |P[x].entries|
    requires !NothingSmaller(P, b, x, e.key)
    ensures !KeySorted(AllEntries(WithEntries(P, x, InsertAt(P[x].entries, i, e)), Chain(b, L)))
  {
    hide Flat;
    var es := InsertAt(P[x].entries, i, e);
    var Q := WithEntries(P, x, es);
    var f :| f in AllEntries(P, Hidden(b, x)) && f.key < e.key;
    var k := IndexOf(L, x);
    NotBehindItself(b, L, x);
    EntriesFrame(P, Q, Hidden(b, x));
    ChainAround(b, L, k);
    EntriesAppend(Q, Chain(b, L[..k]) + Segment(b)(x), Chain(b, L[k + 1..]));
    EntriesAppend(Q, Chain(b, L[..k]), Segment(b)(x));
    SegmentEntries(Q, b, x);
    assert es[i] == e;
    SortedParts(es, AllEntries(Q, Hidden(b, x)));
    SortedParts(AllEntries(Q, Chain(b, L[..k])), AllEntries(Q, Segment(b)(x)));
    SortedParts(AllEntries(Q, Chain(b, L[..k])) + AllEntries(Q, Segment(b)(x)), AllEntries(Q, Chain(b, L[k + 1..])));
  }

  /** The entries along the chain grow by exactly the one put into a leaf. */
  lemma ChainGrows(P: Pages, chain: seq<nat>, x: nat, i: nat, e: Entry)
    requires x in chain && NoDup(chain) && x in P && P[x].LeafPage? && i <= |P[x].entries|
    ensures multiset(AllEntries(WithEntries(P, x, InsertAt(P[x].entries, i, e)), chain)) == multiset(AllEntries(P, chain)) + multiset{e}
  {
    hide Flat;
    var es := P[x].entries;
    EntriesAround(P, WithEntries(P, x, InsertAt(es, i, e)), chain, IndexOf(chain, x));
    assert es == es[..i] + es[i..];
  }

  lemma LeafOnChain(b: Behind, L: seq<nat>, x: nat)
    requires x in L
    ensures x in Chain(b, L)
  {
    MemberFlat(Segment(b), L, x, x);
  }

  // ----- a leaf is cut -----

  /** What stands behind n stands behind its new right half. */
  function BehindRight(b: Behind, n: nat, r: nat): Behind {
    b[n := []][r := Hidden(b, n)]
  }

  /** The chain is the old one with r just behind n. */
  lemma CutChain(b: Behind, L: seq<nat>, n: nat, r: nat) returns (a: seq<nat>, d: seq<nat>)
    requires n in L && NoDup(L) && NoDup(Chain(b, L)) && r !in Chain(b, L)
    ensures Chain(b, L) == a + [n] + d && Chain(BehindRight(b, n, r), InsAfter(L, n, r)) == a + [n, r] + d
  {
    hide Flat;
    var b' := BehindRight(b, n, r);
    var i := IndexOf(L, n);
    ChainAround(b, L, i);
    InsAfterAt(L, i, r);
    NoneIs(b, L, r);
    forall y | y in L && y != n
      ensures Segment(b)(y) == Segment(b')(y)
    {
    }
    NotBeforeOrAfter(L, i);
    FlatFrame(Segment(b), Segment(b'), L[..i]);
    FlatFrame(Segment(b), Segment(b'), L[i + 1..]);
    assert InsAfter(L, n, r) == L[..i] + ([n, r] + L[i + 1..]);
    FlatAppend(Segment(b'), L[..i], [n, r] + L[i + 1..]);
    FlatPair(Segment(b'), n, r, L[i + 1..]);
    a, d := Chain(b, L[..i]), Hidden(b, n) + Chain(b, L[i + 1..]);
  }

  lemma NoneIs(b: Behind, L: seq<nat>, r: nat)
    requires r !in Chain(b, L)
    ensures r !in L
  {
    if r in L {
      LeafOnChain(b, L, r);
    }
  }

  lemma CutKeepsChain(P: Pages, b: Behind, L: seq<nat>, n: nat, es: seq<Entry>, p: nat, q: nat, r: nat)
    requires n in L && NoDup(L) && Linked(P, Chain(b, L)) && r !in P && n in P && P[n].LeafPage? && p <= |es|
    ensures Linked(LeafSplitPages(P, n, es, p, q, r), Chain(BehindRight(b, n, r), InsAfter(L, n, r)))
    ensures AllEntries(LeafSplitPages(P, n, es, p, q, r), Chain(BehindRight(b, n, r), InsAfter(L, n, r)))
            == AllEntries(WithEntries(P, n, es), Chain(b, L))
    ensures r !in Chain(b, L)
    ensures forall y :: y in Chain(BehindRight(b, n, r), InsAfter(L, n, r)) <==> y in Chain(b, L) || y == r
  {
    OnChainInPages(P, Chain(b, L));
    hide Flat;
    var a, d := CutChain(b, L, n, r);
    var Q := LeafSplitPages(P, n, es, p, q, r);
    CutLinked(P, Q, a, d, n, r);
    assert es == es[..p] + es[p..];
    CutEntries(WithEntries(P, n, es), Q, a, d, n, r);
  }

  lemma CutEntries(W: Pages, Q: Pages, a: seq<nat>, d: seq<nat>, n: nat, r: nat)
    requires NoDup(a + [n] + d) && r !in a + [n] + d && Entries(W, n) == Entries(Q, n) + Entries(Q, r)
    requires forall x :: x != n && x != r ==> Entries(Q, x) == Entries(W, x)
    ensures AllEntries(Q, a + [n, r] + d) == AllEntries(W, a + [n] + d)
  {
    hide Flat, AllEntries;
    NotBeforeOrAfter(a + [n] + d, |a|);
    assert (a + [n] + d)[..|a|] == a && (a + [n] + d)[|a| + 1..] == d;
    AroundEntries(W, a, [n], d);
    AroundEntries(Q, a, [n, r], d);
    EntriesFrame(W, Q, a);
    EntriesFrame(W, Q, d);
    EntriesOne(W, n);
    EntriesAppend(Q, [n], [r]);
    EntriesOne(Q, n);
    EntriesOne(Q, r);
    assert [n] + [r] == [n, r];
  }

  lemma OnChainInPages(P: Pages, chain: seq<nat>)
    requires Linked(P, chain)
    ensures forall x :: x in chain ==> x in P && P[x].LeafPage?
  {
    forall x | x in chain
      ensures x in P && P[x].LeafPage?
    {
      assert NextOk(P, chain, IndexOf(chain, x));
    }
  }

  lemma AroundEntries(P: Pages, a: seq<nat>, m: seq<nat>, d: seq<nat>)
    ensures AllEntries(P, a + m + d) == AllEntries(P, a) + AllEntries(P, m) + AllEntries(P, d)
  {
    hide Flat;
    EntriesAppend(P, a + m, d);
    EntriesAppend(P, a, m);
  }

  lemma CutLinked(P: Pages, Q: Pages, a: seq<nat>, d: seq<nat>, n: nat, r: nat)
    requires Linked(P, a + [n] + d) && r !in a + [n] + d && n in P && n in Q && r in Q
    requires Q[n].LeafPage? && Q[r].LeafPage? && P[n].LeafPage? && Q[n].next == Some(r) && Q[r].next == P[n].next
    requires forall x :: x in P && x != n && x != r ==> x in Q && Q[x] == P[x]
    ensures Linked(Q, a + [n, r] + d)
  {
    var s, t := a + [n] + d, a + [n, r] + d;
    forall i, j | 0 <= i < j < |t|
      ensures t[i] != t[j]
    {
      assert i <= |a| ==> t[i] == s[i];
      assert i > |a| + 1 ==> t[i] == s[i - 1];
      assert j <= |a| ==> t[j] == s[j];
      assert j > |a| + 1 ==> t[j] == s[j - 1];
    }
    forall i | 0 <= i < |t|
      ensures NextOk(Q, t, i)
    {
      var m := if i <= |a| then i else i - 1;
      assert NextOk(P, s, m);
      assert i != |a| + 1 ==> t[i] == s[m];
      assert s[|a|] == n;
      assert i + 1 < |t| && i != |a| ==> t[i + 1] == s[m + 1];
    }
  }

  /** An ordered chain stays ordered: what follows the separator goes with the right half. */
  lemma CutKeepsOrder(P: Pages, s: Shape, t: Shape, b: Behind, n: nat, es: seq<Entry>, p: nat, q: nat, r: nat)
    requires n in P && P[n].LeafPage? && p < |es| && SortedEntries(es) && r !in P
    requires LeafDivided(s, t, n, r, es[p].key) && n in s.levels[0] && NoDup(s.levels[0])
    requires Linked(P, Chain(b, s.levels[0]))
    requires OrderedChain(WithEntries(P, n, es), s, b)
    requires forall e :: e in es ==> Le(Fin(e.key), s.hi[n])
    ensures OrderedChain(LeafSplitPages(P, n, es, p, q, r), t, BehindRight(b, n, r))
  {
    OnChainInPages(P, Chain(b, s.levels[0]));
    hide Flat, SegmentOk;
    var Q, b' := LeafSplitPages(P, n, es, p, q, r), BehindRight(b, n, r);
    NoneIs(b, s.levels[0], r);
    InsAfterNoDup(s.levels[0], n, r);
    forall y | y in t.levels[0]
      ensures y in t.lo && y in t.hi && SegmentOk(Q, t, b', y)
    {
      if y != n && y != r {
        assert SegmentOk(WithEntries(P, n, es), s, b, y);
        OneSegment(b, s.levels[0], y, n, n);
        SegmentOnChain(b, s.levels[0], y);
        assert t.lo[y] == s.lo[y] && t.hi[y] == s.hi[y];
        SegmentFrame(WithEntries(P, n, es), Q, s, t, b, b', y);
      } else {
        assert SegmentOk(WithEntries(P, n, es), s, b, n);
        SegmentOnChain(b, s.levels[0], n);
        NotBehindItself(b, s.levels[0], n);
        SegmentCut(P, s, t, b, n, es, p, q, r);
      }
    }
  }

  lemma SegmentOnChain(b: Behind, L: seq<nat>, x: nat)
    requires x in L
    ensures forall z :: z in Segment(b)(x) ==> z in Chain(b, L)
  {
    forall z | z in Segment(b)(x)
      ensures z in Chain(b, L)
    {
      MemberFlat(Segment(b), L, x, z);
    }
  }

  lemma SegmentCut(P: Pages, s: Shape, t: Shape, b: Behind, n: nat, es: seq<Entry>, p: nat, q: nat, r: nat)
    requires n in P && P[n].LeafPage? && p < |es| && SortedEntries(es) && r !in P
    requires LeafDivided(s, t, n, r, es[p].key) && n in s.levels[0] && n != r
    requires SegmentOk(WithEntries(P, n, es), s, b, n) && n !in Hidden(b, n) && r !in Hidden(b, n)
    requires forall e :: e in es ==> Le(Fin(e.key), s.hi[n])
    ensures var Q, b' := LeafSplitPages(P, n, es, p, q, r), BehindRight(b, n, r);
            SegmentOk(Q, t, b', n) && SegmentOk(Q, t, b', r)
  {
    var W, Q, b' := WithEntries(P, n, es), LeafSplitPages(P, n, es, p, q, r), BehindRight(b, n, r);
    var hidden := AllEntries(W, Hidden(b, n));
    SegmentEntries(W, b, n);
    SegmentEntries(Q, b', n);
    SegmentEntries(Q, b', r);
    NoEntries(Q);
    hide Flat, AllEntries, Segment;
    EntriesFrame(W, Q, Hidden(b, n));
    SortedByKey(es);
    SplitSorted(es, p, hidden);
    assert Hidden(b', n) == [] && Hidden(b', r) == Hidden(b, n);
    assert Entries(Q, n) == es[..p] && Entries(Q, r) == es[p..] && Entries(W, n) == es;
    assert AllEntries(Q, Segment(b')(n)) == es[..p];
    assert AllEntries(Q, Segment(b')(r)) == es[p..] + hidden;
  }

  lemma SplitSorted(es: seq<Entry>, p: nat, hidden: seq<Entry>)
    requires KeySorted(es + hidden) && p < |es|
    ensures KeySorted(es[..p]) && KeySorted(es[p..] + hidden)
    ensures forall e :: e in hidden ==> es[p].key <= e.key
  {
    assert es + hidden == es[..p] + (es[p..] + hidden);
    SortedParts(es[..p], es[p..] + hidden);
    SortedParts(es, hidden);
    assert es[p] in es;
  }

  lemma NoEntries(P: Pages)
    ensures AllEntries(P, []) == []
  {
  }

  // ----- a separator is given up -----

  /** The leaves below r now stand behind the last leaf below n. */
  ghost function BehindEdge(b: Behind, x: Loss): Behind
    requires x.Open()
  {
    var e := if x.Left(x.h) != [] then Last(x.Left(x.h)) else 0;
    b[e := Hidden(b, e) + Chain(b, x.Gone(x.h))]
  }

  lemma LossKeepsChain(b: Behind, x: Loss)
    requires x.Ready() && NoDup(Chain(b, x.s.levels[0]))
    ensures x.Left(x.h) != [] && |x.Rest().levels| > 0 && x.Rest().levels[0] == x.Left(x.h) + x.Right(x.h)
    ensures Chain(BehindEdge(b, x), x.Rest().levels[0]) == Chain(b, x.s.levels[0])
  {
    hide Inv, Flat, NodeFits, Below, Chain;
    x.RestLevel(0);
    x.Blocks(x.h);
    x.BlocksFilled(x.h);
    var a, g, d := x.Left(x.h), x.Gone(x.h), x.Right(x.h);
    NoDupOuter(a, g, d);
    MoveBehind(b, a, g, d);
  }

  lemma MoveBehind(b: Behind, a: seq<nat>, g: seq<nat>, d: seq<nat>)
    requires a != [] && NoDup(a + d)
    ensures Chain(b[Last(a) := Hidden(b, Last(a)) + Chain(b, g)], a + d) == Chain(b, a + g + d)
  {
    var e := Last(a);
    var b' := b[e := Hidden(b, e) + Chain(b, g)];
    var rest := a[..|a| - 1];
    assert a == rest + [e];
    hide Flat, Chain;
    forall y | y in rest || y in d
      ensures y != e
    {
      EndOnce(a, d, y);
    }
    ChainFrame(b, b', rest);
    ChainFrame(b, b', d);
    ChainAppend(b', a, d);
    ChainAppend(b', rest, [e]);
    ChainAppend(b, a + g, d);
    ChainAppend(b, a, g);
    ChainAppend(b, rest, [e]);
    ChainOne(b, e);
    ChainOne(b', e);
    Reassociate(Chain(b, rest), [e], Hidden(b, e), Chain(b, g), Chain(b, d));
  }

  lemma Reassociate(r: seq<nat>, e: seq<nat>, h: seq<nat>, g: seq<nat>, d: seq<nat>)
    ensures (r + (e + (h + g))) + d == ((r + (e + h)) + g) + d
    ensures ((r + (e + h)) + g) + d == r + (e + (h + g)) + d
  {
  }

  lemma ChainAppend(b: Behind, a: seq<nat>, d: seq<nat>)
    ensures Chain(b, a + d) == Chain(b, a) + Chain(b, d)
  {
    FlatAppend(Segment(b), a, d);
  }

  lemma ChainFrame(b: Behind, b': Behind, ids: seq<nat>)
    requires forall y :: y in ids ==> Hidden(b, y) == Hidden(b', y)
    ensures Chain(b, ids) == Chain(b', ids)
  {
    FlatFrame(Segment(b), Segment(b'), ids);
  }

  lemma ChainOne(b: Behind, e: nat)
    ensures Chain(b, [e]) == [e] + Hidden(b, e)
  {
    assert [e][1..] == [];
    assert Flat(Segment(b), [e]) == Segment(b)(e) + [];
  }

  lemma EndOnce(a: seq<nat>, d: seq<nat>, y: nat)
    requires a != [] && NoDup(a + d) && (y in a[..|a| - 1] || y in d)
    ensures y != Last(a)
  {
    var s := a + d;
    assert s[|a| - 1] == Last(a);
    if y in d {
      assert s[|a| + IndexOf(d, y)] == y;
    } else {
      assert s[IndexOf(a[..|a| - 1], y)] == y;
    }
  }

  /** Giving up a separator keeps an ordered chain ordered. */
  lemma LossKeepsOrder(P: Pages, b: Behind, x: Loss)
    requires x.Ready() && NoDup(Chain(b, x.s.levels[0])) && SameEntries(P, x.Whole()) && OrderedChain(P, x.s, b)
    ensures OrderedChain(P, x.Rest(), BehindEdge(b, x))
  {
    hide Inv, Flat, NodeFits, Below, SegmentOk, Chain;
    LossKeepsChain(b, x);
    var e, b', t := Last(x.Left(x.h)), BehindEdge(b, x), x.Rest();
    forall y | y in t.levels[0]
      ensures y in t.lo && y in t.hi && SegmentOk(P, t, b', y)
    {
      RestLeaf(x, y);
      assert SegmentOk(P, x.s, b, y);
      if y == e {
        EdgeSegment(P, b, x);
      } else {
        SegmentFrame(P, P, x.s, t, b, b', y);
      }
    }
  }

  lemma RestLeaf(x: Loss, y: nat)
    requires x.Ready() && x.Left(x.h) != [] && y in x.Left(x.h) + x.Right(x.h)
    ensures x.s.levels != [] && y in x.s.levels[0] && y in x.Rest().lo && y in x.Rest().hi && y in x.s.lo && y in x.s.hi
    ensures x.Rest().lo[y] == x.s.lo[y] && x.Rest().hi[y] == if y == Last(x.Left(x.h)) then x.s.hi[x.r] else x.s.hi[y]
  {
    var i := IndexOf(x.Left(x.h) + x.Right(x.h), y);
    x.LeafStays(i);
    x.RestEnds(y);
    x.OnItsLevel(0, y);
    hide Inv, NodeFits, Below;
    EdgeIsLast(x, y);
  }

  lemma EdgeIsLast(x: Loss, y: nat)
    requires x.Open() && x.Left(x.h) != [] && y in x.s.level && x.s.level[y] == 0
    ensures x.Edge(y) <==> y == Last(x.Left(x.h))
  {
    hide NodeFits, Below;
  }

  /** The last leaf below n, followed by all that stood in the chain up to where r ends. */
  lemma EdgeSegment(P: Pages, b: Behind, x: Loss)
    requires x.Ready() && NoDup(Chain(b, x.s.levels[0])) && SameEntries(P, x.Whole()) && OrderedChain(P, x.s, b)
    requires x.Left(x.h) != [] && Last(x.Left(x.h)) in x.Rest().lo && Last(x.Left(x.h)) in x.Rest().hi
    requires Last(x.Left(x.h)) in x.s.lo && Last(x.Left(x.h)) in x.s.hi && Last(x.Left(x.h)) in x.s.levels[0]
    requires x.Rest().lo[Last(x.Left(x.h))] == x.s.lo[Last(x.Left(x.h))] && x.Rest().hi[Last(x.Left(x.h))] == x.s.hi[x.r]
    ensures SegmentOk(P, x.Rest(), BehindEdge(b, x), Last(x.Left(x.h)))
  {
    hide Inv, Flat, NodeFits, Below, Chain, AllEntries, SegmentOk, BehindEdge, OrderedChain, Shows, NoDup;
    EdgeSorted(P, b, x);
    EdgeInside(P, b, x);
    HiddenAtEdge(b, x);
    MakeSegment(P, x.Rest(), BehindEdge(b, x), Last(x.Left(x.h)));
  }

  lemma HiddenAtEdge(b: Behind, x: Loss)
    requires x.Open() && x.Left(x.h) != []
    ensures Hidden(BehindEdge(b, x), Last(x.Left(x.h))) == Hidden(b, Last(x.Left(x.h))) + Chain(b, x.Gone(x.h))
  {
  }

  lemma MakeSegment(P: Pages, t: Shape, b: Behind, e: nat)
    requires e in t.lo && e in t.hi && KeySorted(AllEntries(P, [e] + Hidden(b, e)))
    requires forall f :: f in AllEntries(P, Hidden(b, e)) ==> Le(t.lo[e], Fin(f.key)) && Le(Fin(f.key), t.hi[e])
    ensures SegmentOk(P, t, b, e)
  {
  }

  lemma EdgeInside(P: Pages, b: Behind, x: Loss)
    requires x.Ready() && SameEntries(P, x.Whole()) && OrderedChain(P, x.s, b) && x.Left(x.h) != []
    requires Last(x.Left(x.h)) in x.s.lo && Last(x.Left(x.h)) in x.s.hi && Last(x.Left(x.h)) in x.s.levels[0]
    ensures forall f :: f in AllEntries(P, Hidden(b, Last(x.Left(x.h))) + Chain(b, x.Gone(x.h))) ==>
              Le(x.s.lo[Last(x.Left(x.h))], Fin(f.key)) && Le(Fin(f.key), x.s.hi[x.r])
  {
    hide Inv, Flat, NodeFits, Below, Chain, AllEntries;
    var e, g := Last(x.Left(x.h)), x.Gone(x.h);
    EdgePlace(x);
    assert SegmentOk(P, x.s, b, e);
    EntriesAppend(P, Hidden(b, e), Chain(b, g));
    forall f | f in AllEntries(P, Chain(b, g))
      ensures Le(x.s.lo[x.r], Fin(f.key)) && Le(Fin(f.key), x.s.hi[x.r])
    {
      GoneEntry(P, b, x, f);
    }
  }

  lemma EdgePlace(x: Loss)
    requires x.Ready() && x.Left(x.h) != []
    ensures var e := Last(x.Left(x.h)); e in x.s.level && x.s.hi[e] == Fin(x.sep) == x.s.lo[x.r]
    ensures Le(x.s.lo[Last(x.Left(x.h))], Fin(x.sep)) && Le(Fin(x.sep), x.s.hi[x.r])
  {
    hide Inv, NodeFits, Below, Flat;
    x.Between();
    x.BlocksFilled(x.h);
    EdgeIsLast(x, Last(x.Left(x.h)));
    x.EdgeEnds(Last(x.Left(x.h)));
    IntervalHere(x, Last(x.Left(x.h)));
  }

  lemma IntervalHere(x: Loss, y: nat)
    requires x.Ready() && y in x.s.level
    ensures Le(x.s.lo[y], x.s.hi[y])
  {
    hide LevelsOk, KindsOk, LinksOk, KidsOk, SizesOk, ChainOk, NodeFits, Below;
    assert IntervalOk(x.s, y);
  }

  lemma GoneEntry(P: Pages, b: Behind, x: Loss, f: Entry)
    requires x.Ready() && SameEntries(P, x.Whole()) && OrderedChain(P, x.s, b) && f in AllEntries(P, Chain(b, x.Gone(x.h)))
    ensures Le(x.s.lo[x.r], Fin(f.key)) && Le(Fin(f.key), x.s.hi[x.r])
  {
    var y := FlatMember(EntriesOf(P), Chain(b, x.Gone(x.h)), f);
    var z := FlatMember(Segment(b), x.Gone(x.h), y);
    x.GoneInside(x.h, z);
    x.OneBlock(x.h, z);
    x.OnItsLevel(0, z);
    MemberFlat(EntriesOf(P), Segment(b)(z), y, f);
    var i := IndexOf(x.s.levels[0], z);
    SegmentInside(x.c, P, x.Whole(), x.s, x.root, {x.q}, b, i);
    hide Inv, Flat, NodeFits, Below;
  }

  lemma EdgeSorted(P: Pages, b: Behind, x: Loss)
    requires x.Ready() && SameEntries(P, x.Whole()) && OrderedChain(P, x.s, b) && x.Left(x.h) != []
    ensures var e := Last(x.Left(x.h)); KeySorted(AllEntries(P, [e] + (Hidden(b, e) + Chain(b, x.Gone(x.h)))))
  {
    x.Blocks(x.h);
    OrderedIsSorted(x.c, P, x.Whole(), x.s, x.root, {x.q}, b);
    hide Inv, Flat, NodeFits, Below, Chain, AllEntries;
    EndSorted(P, b, x.Left(x.h), x.Gone(x.h), x.Right(x.h));
  }

  lemma EndSorted(P: Pages, b: Behind, a: seq<nat>, g: seq<nat>, d: seq<nat>)
    requires a != [] && KeySorted(AllEntries(P, Chain(b, a + g + d)))
    ensures KeySorted(AllEntries(P, [Last(a)] + (Hidden(b, Last(a)) + Chain(b, g))))
  {
    hide Flat, Chain, AllEntries;
    var e, rest := Last(a), a[..|a| - 1];
    assert a == rest + [e];
    ChainAppend(b, a + g, d);
    ChainAppend(b, a, g);
    ChainAppend(b, rest, [e]);
    ChainOne(b, e);
    Reassociate(Chain(b, rest), [e], Hidden(b, e), Chain(b, g), Chain(b, d));
    MiddleSorted(P, Chain(b, rest), [e] + (Hidden(b, e) + Chain(b, g)), Chain(b, d));
  }

  lemma MiddleSorted(P: Pages, a: seq<nat>, m: seq<nat>, d: seq<nat>)
    requires KeySorted(AllEntries(P, a + m + d))
    ensures KeySorted(AllEntries(P, m))
  {
    hide Flat, AllEntries;
    AroundEntries(P, a, m, d);
    SortedParts(AllEntries(P, a) + AllEntries(P, m), AllEntries(P, d));
    SortedParts(AllEntries(P, a), AllEntries(P, m));
  }

  // ----- removing entries -----

  lemma {:induction false} WithoutKeepsKeys(es: seq<Entry>, key: Key, rid: Option<RID>)
    requires KeySorted(es)
    ensures KeySorted(Without(es, key, rid))
  {
    if es != [] {
      assert es == [es[0]] + es[1..];
      SortedParts([es[0]], es[1..]);
      WithoutKeepsKeys(es[1..], key, rid);
      WithoutShrinks(es[1..], key, rid);
      SortedParts([es[0]], Without(es[1..], key, rid));
    }
  }

  /** Taking entries out of one page of an ascending stretch of the chain leaves it ascending. */
  lemma {:induction false} StretchShrinks(P: Pages, Q: Pages, ids: seq<nat>, y: nat, key: Key, rid: Option<RID>)
    requires KeySorted(AllEntries(P, ids))
    requires Entries(Q, y) == Without(Entries(P, y), key, rid) && forall z :: z != y ==> Entries(Q, z) == Entries(P, z)
    ensures KeySorted(AllEntries(Q, ids)) && forall e :: e in AllEntries(Q, ids) ==> e in AllEntries(P, ids)
  {
    if ids != [] {
      EntriesCons(P, ids);
      EntriesCons(Q, ids);
      hide Flat, AllEntries, KeySorted, Without;
      SortedParts(Entries(P, ids[0]), AllEntries(P, ids[1..]));
      StretchShrinks(P, Q, ids[1..], y, key, rid);
      PageShrinks(P, Q, ids[0], y, key, rid);
      SortedParts(Entries(Q, ids[0]), AllEntries(Q, ids[1..]));
    }
  }

  lemma PageShrinks(P: Pages, Q: Pages, x: nat, y: nat, key: Key, rid: Option<RID>)
    requires KeySorted(Entries(P, x))
    requires Entries(Q, y) == Without(Entries(P, y), key, rid) && forall z :: z != y ==> Entries(Q, z) == Entries(P, z)
    ensures KeySorted(Entries(Q, x)) && forall e :: e in Entries(Q, x) ==> e in Entries(P, x)
  {
    if x == y {
      WithoutKeepsKeys(Entries(P, y), key, rid);
      WithoutShrinks(Entries(P, y), key, rid);
    }
  }

  lemma EntriesCons(P: Pages, ids: seq<nat>)
    requires ids != []
    ensures AllEntries(P, ids) == Entries(P, ids[0]) + AllEntries(P, ids[1..])
  {
  }

  lemma RemovalKeepsOrder(P: Pages, Q: Pages, s: Shape, b: Behind, y: nat, key: Key, rid: Option<RID>)
    requires OrderedChain(P, s, b)
    requires Entries(Q, y) == Without(Entries(P, y), key, rid) && forall z :: z != y ==> Entries(Q, z) == Entries(P, z)
    ensures OrderedChain(Q, s, b)
  {
    hide Flat;
    forall x | x in s.levels[0]
      ensures SegmentOk(Q, s, b, x)
    {
      assert SegmentOk(P, s, b, x);
      StretchShrinks(P, Q, Segment(b)(x), y, key, rid);
      SegmentEntries(P, b, x);
      SortedParts(Entries(P, x), AllEntries(P, Hidden(b, x)));
      StretchShrinks(P, Q, Hidden(b, x), y, key, rid);
    }
  }

  // ----- the pages and the part of them that can be reached -----

  lemma ShowsEntries(P: Pages, T: Pages, x: nat, es: seq<Entry>)
    requires Shows(P, T) && x in T && T[x].LeafPage?
    ensures P[x].LeafPage? && P[x].entries == T[x].entries && Shows(WithEntries(P, x, es), WithEntries(T, x, es))
  {
    assert SameNode(P[x], T[x]);
    var Q, U := WithEntries(P, x, es), WithEntries(T, x, es);
    forall id | id in U
      ensures SameNode(Q[id], U[id])
    {
      assert SameNode(P[id], T[id]);
    }
  }

  lemma ShowsLeafSplit(P: Pages, T: Pages, n: nat, es: seq<Entry>, p: nat, q: nat, r: nat)
    requires Shows(P, T) && n in T && T[n].LeafPage? && p <= |es| && r !in P
    ensures n in P && P[n].LeafPage? && P[n].entries == T[n].entries && Shows(LeafSplitPages(P, n, es, p, q, r), LeafSplitPages(T, n, es, p, q, r))
  {
    assert SameNode(P[n], T[n]);
    var Q, U := LeafSplitPages(P, n, es, p, q, r), LeafSplitPages(T, n, es, p, q, r);
    forall id | id in U
      ensures SameNode(Q[id], U[id])
    {
      assert id != r ==> SameNode(P[id], T[id]);
    }
  }

  lemma ShowsNode(P: Pages, T: Pages, g: nat, page: Page)
    requires Shows(P, T) && page.InternalPage?
    ensures Shows(P[g := page], T[g := page])
  {
    var Q, U := P[g := page], T[g := page];
    forall id | id in U
      ensures SameNode(Q[id], U[id])
    {
      assert id != g ==> SameNode(P[id], T[id]);
    }
  }

  lemma ShowsReparent(P: Pages, T: Pages, children: seq<nat>, p: nat)
    requires Shows(P, T)
    ensures Shows(Reparent(P, children, p), Reparent(T, children, p))
  {
    var Q, U := Reparent(P, children, p), Reparent(T, children, p);
    forall id | id in U
      ensures SameNode(Q[id], U[id])
    {
      assert SameNode(P[id], T[id]);
    }
  }

  lemma ShowsInternalSplit(P: Pages, T: Pages, n: nat, ks: seq<Key>, cs: seq<nat>, p: nat, q: nat, r: nat)
    requires Shows(P, T) && p < |ks| && |cs| == |ks| + 1
    ensures Shows(InternalSplitPages(P, n, ks, cs, p, q, r), InternalSplitPages(T, n, ks, cs, p, q, r))
  {
    var left := InternalPage(Some(q), ks[..p], cs[..p + 1]);
    var right := InternalPage(Some(q), ks[p + 1..], cs[p + 1..]);
    ShowsNode(P, T, n, left);
    ShowsNode(P[n := left], T[n := left], r, right);
    ShowsReparent(P[n := left][r := right], T[n := left][r := right], cs[..p + 1], n);
    ShowsReparent(Reparent(P[n := left][r := right], cs[..p + 1], n), Reparent(T[n := left][r := right], cs[..p + 1], n), cs[p + 1..], r);
  }

  lemma ShowsKept(P: Pages, x: Loss)
    requires x.Open() && Shows(P, x.P)
    ensures Shows(P, x.Kept())
  {
    hide Below, NodeFits;
    forall id | id in x.Kept()
      ensures SameNode(P[id], x.Kept()[id])
    {
      assert SameNode(P[id], x.P[id]);
    }
  }

  /** Leaves keep their entries and where they point; other pages may change. */
  ghost predicate SameLeaves(P: Pages, Q: Pages) {
    forall id :: id in P && P[id].LeafPage? ==>
      id in Q && Q[id].LeafPage? && Q[id].next == P[id].next && Q[id].entries == P[id].entries
  }

  lemma InternalSplitLeaves(P: Pages, n: nat, ks: seq<Key>, cs: seq<nat>, p: nat, q: nat, r: nat)
    requires n in P && P[n].InternalPage? && r !in P && p < |ks| && |cs| == |ks| + 1
    ensures SameLeaves(P, InternalSplitPages(P, n, ks, cs, p, q, r))
    ensures InternalSplitPages(P, n, ks, cs, p, q, r).Keys == P.Keys + {r}
  {
  }

  lemma SameLeavesChain(P: Pages, Q: Pages, chain: seq<nat>)
    requires Linked(P, chain) && SameLeaves(P, Q)
    ensures Linked(Q, chain) && AllEntries(Q, chain) == AllEntries(P, chain)
  {
    OnChainInPages(P, chain);
    EntriesFrame(P, Q, chain);
    forall i | 0 <= i < |chain|
      ensures NextOk(Q, chain, i)
    {
      assert NextOk(P, chain, i);
    }
  }

  lemma SameLeavesOrder(P: Pages, Q: Pages, s: Shape, t: Shape, b: Behind)
    requires |s.levels| > 0 && Linked(P, Chain(b, s.levels[0])) && SameLeaves(P, Q) && OrderedChain(P, s, b)
    requires LeavesKept(s, t)
    ensures OrderedChain(Q, t, b)
  {
    OnChainInPages(P, Chain(b, s.levels[0]));
    hide Flat, SegmentOk;
    forall y | y in t.levels[0]
      ensures y in t.lo && y in t.hi && SegmentOk(Q, t, b, y)
    {
      assert SegmentOk(P, s, b, y);
      SegmentOnChain(b, s.levels[0], y);
      assert t.lo[y] == s.lo[y] && t.hi[y] == s.hi[y];
      SegmentFrame(P, Q, s, t, b, b, y);
    }
  }

  // ----- what each write does to pages, tree and chain together -----

  /** The pages P hold the tree T of shape s, its leaves and those behind them linked to one chain. */
  ghost predicate View(P: Pages, T: Pages, s: Shape, b: Behind) {
    && |s.levels| > 0 && T.Keys == s.level.Keys && Shows(P, T) && Linked(P, Chain(b, s.levels[0]))
  }

  ghost predicate StartsWith(s: Shape, x: nat) {
    |s.levels| > 0 && |s.levels[0]| > 0 && s.levels[0][0] == x
  }

  /** The chain of Q holds the entries that the chain of P holds, begins where it began, and is ordered if it was. */
  ghost predicate Carries(P: Pages, s: Shape, b: Behind, Q: Pages, t: Shape, d: Behind) {
    && |s.levels| > 0 && |t.levels| > 0
    && AllEntries(Q, Chain(d, t.levels[0])) == AllEntries(P, Chain(b, s.levels[0]))
    && (OrderedChain(P, s, b) ==> OrderedChain(Q, t, d))
    && (forall x :: StartsWith(s, x) ==> StartsWith(t, x))
  }

  lemma CarriesOn(P: Pages, s: Shape, b: Behind, Q: Pages, t: Shape, d: Behind, R: Pages, u: Shape, e: Behind)
    requires Carries(P, s, b, Q, t, d) && Carries(Q, t, d, R, u, e)
    ensures Carries(P, s, b, R, u, e)
  {
    hide OrderedChain, AllEntries, Chain;
  }

  ghost predicate NothingBehind(s: Shape, b: Behind) {
    |s.levels| > 0 && forall x :: x in s.levels[0] ==> Hidden(b, x) == []
  }

  lemma NothingIsSmaller(P: Pages, s: Shape, b: Behind, x: nat, key: Key)
    requires NothingBehind(s, b) && x in s.levels[0]
    ensures NothingSmaller(P, b, x, key)
  {
    NoEntries(P);
  }

  /** A leaf of the tree gets other entries. */
  lemma WriteLeafView(P: Pages, T: Pages, s: Shape, b: Behind, x: nat, es: seq<Entry>)
    requires View(P, T, s, b) && x in T && T[x].LeafPage?
    ensures x in P && P[x].LeafPage? && P[x].entries == T[x].entries && P[x].parent == T[x].parent
    ensures View(WithEntries(P, x, es), WithEntries(T, x, es), s, b)
  {
    ShowsEntries(P, T, x, es);
    assert SameNode(P[x], T[x]);
    RelinkSame(P, x, es, Chain(b, s.levels[0]));
  }

  /** A leaf that only the chain leads to gets other entries. */
  lemma HiddenLeafView(P: Pages, T: Pages, s: Shape, b: Behind, x: nat, es: seq<Entry>)
    requires View(P, T, s, b) && x !in T && x in P && P[x].LeafPage?
    ensures View(WithEntries(P, x, es), T, s, b)
  {
    RelinkSame(P, x, es, Chain(b, s.levels[0]));
    forall id | id in T
      ensures SameNode(WithEntries(P, x, es)[id], T[id])
    {
      assert SameNode(P[id], T[id]);
    }
  }

  lemma RelinkSame(P: Pages, x: nat, es: seq<Entry>, chain: seq<nat>)
    requires x in P && P[x].LeafPage? && Linked(P, chain)
    ensures Linked(WithEntries(P, x, es), chain)
  {
    forall i | 0 <= i < |chain|
      ensures NextOk(WithEntries(P, x, es), chain, i)
    {
      assert NextOk(P, chain, i);
    }
  }

  /** A leaf of the tree is cut. */
  lemma LeafSplitView(c: Codec, P: Pages, T: Pages, s: Shape, root: nat, b: Behind, n: nat, i: nat, e: Entry, p: nat, q: nat, r: nat, t: Shape)
    requires View(P, T, s, b) && Inv(c, T, s, root, {}) && n in s.level && s.level[n] == 0 && r !in P
    requires i <= |Entries(T, n)| && p <= |Entries(T, n)| && SortedEntries(InsertAt(Entries(T, n), i, e)) && Le(Fin(e.key), s.hi[n])
    requires t.level.Keys == s.level.Keys + {r} && LeafDivided(s, t, n, r, InsertAt(Entries(T, n), i, e)[p].key)
    ensures n in P && P[n].LeafPage? && n in T && T[n].LeafPage? && Entries(P, n) == Entries(T, n)
    ensures var es := InsertAt(Entries(T, n), i, e);
            var Q := LeafSplitPages(P, n, es, p, q, r);
            && View(Q, LeafSplitPages(T, n, es, p, q, r), t, BehindRight(b, n, r))
            && Carries(WithEntries(P, n, es), s, b, Q, t, BehindRight(b, n, r))
            && (NothingBehind(s, b) ==> NothingBehind(t, BehindRight(b, n, r)))
  {
    hide Inv, Flat, AllEntries, NoDup, SegmentOk, SortedEntries, Linked, Shows, LeafDivided, OrderedChain;
    LeafInTree(c, T, s, root, n);
    var es := InsertAt(Entries(T, n), i, e);
    ShowsLeafSplit(P, T, n, es, p, q, r);
    CutView(P, s, b, n, es, p, q, r, t);
    forall f | f in es
      ensures Le(Fin(f.key), s.hi[n])
    {
      assert f == e || f in Entries(T, n);
    }
    if OrderedChain(WithEntries(P, n, es), s, b) {
      CutKeepsOrder(P, s, t, b, n, es, p, q, r);
    }
  }

  lemma CutView(P: Pages, s: Shape, b: Behind, n: nat, es: seq<Entry>, p: nat, q: nat, r: nat, t: Shape)
    requires |s.levels| > 0 && Linked(P, Chain(b, s.levels[0])) && n in s.levels[0] && NoDup(s.levels[0]) && r !in P
    requires n in P && P[n].LeafPage? && p < |es| && LeafDivided(s, t, n, r, es[p].key)
    ensures var Q := LeafSplitPages(P, n, es, p, q, r);
            && |t.levels| > 0 && Linked(Q, Chain(BehindRight(b, n, r), t.levels[0]))
            && AllEntries(Q, Chain(BehindRight(b, n, r), t.levels[0])) == AllEntries(WithEntries(P, n, es), Chain(b, s.levels[0]))
            && (NothingBehind(s, b) ==> NothingBehind(t, BehindRight(b, n, r)))
            && (forall x :: StartsWith(s, x) ==> StartsWith(t, x))
  {
    hide Flat, AllEntries, NoDup, Linked, Chain;
    CutKeepsChain(P, b, s.levels[0], n, es, p, q, r);
    NoneIs(b, s.levels[0], r);
    InsAfterNoDup(s.levels[0], n, r);
  }

  lemma LeafInTree(c: Codec, T: Pages, s: Shape, root: nat, n: nat)
    requires Inv(c, T, s, root, {}) && n in s.level && s.level[n] == 0
    ensures n in T && T[n].LeafPage? && |s.levels| > 0 && n in s.levels[0] && NoDup(s.levels[0])
    ensures s.lo.Keys == s.level.Keys && s.hi.Keys == s.level.Keys
    ensures forall e :: e in Entries(T, n) ==> Le(Fin(e.key), s.hi[n])
  {
    hide LinksOk, KidsOk, SizesOk, ChainOk;
    assert OnLevel(s, n) && NoDup(s.levels[0]);
    assert LeafBounds(T, s, n);
  }

  /** An internal node of the tree is written, possibly a new one. */
  lemma NodeView(P: Pages, T: Pages, s: Shape, b: Behind, g: nat, page: Page, t: Shape)
    requires View(P, T, s, b) && page.InternalPage? && (g in P ==> P[g].InternalPage?)
    requires LeavesKept(s, t) && t.level.Keys == s.level.Keys + {g}
    ensures View(P[g := page], T[g := page], t, b) && Carries(P, s, b, P[g := page], t, b)
    ensures NothingBehind(s, b) ==> NothingBehind(t, b)
  {
    ShowsNode(P, T, g, page);
    hide Flat, NoDup;
    SameLeavesChain(P, P[g := page], Chain(b, s.levels[0]));
    if OrderedChain(P, s, b) {
      SameLeavesOrder(P, P[g := page], s, t, b);
    }
  }

  /** An internal node of the tree is cut. */
  lemma InternalSplitView(P: Pages, T: Pages, s: Shape, b: Behind, n: nat, ks: seq<Key>, cs: seq<nat>, p: nat, q: nat, r: nat, t: Shape)
    requires View(P, T, s, b) && n in P && P[n].InternalPage? && n in T && r !in P && p < |ks| && |cs| == |ks| + 1
    requires LeavesKept(s, t) && t.level.Keys == s.level.Keys + {r}
    ensures var Q := InternalSplitPages(P, n, ks, cs, p, q, r);
            && View(Q, InternalSplitPages(T, n, ks, cs, p, q, r), t, b)
            && Carries(P, s, b, Q, t, b)
            && (NothingBehind(s, b) ==> NothingBehind(t, b))
            && Q.Keys == P.Keys + {r}
  {
    ShowsInternalSplit(P, T, n, ks, cs, p, q, r);
    InternalSplitLeaves(P, n, ks, cs, p, q, r);
    SplitKeys(T, n, ks, cs, p, q, r);
    hide Flat, NoDup, InternalSplitPages, SameLeaves;
    SameLeavesChain(P, InternalSplitPages(P, n, ks, cs, p, q, r), Chain(b, s.levels[0]));
    if OrderedChain(P, s, b) {
      SameLeavesOrder(P, InternalSplitPages(P, n, ks, cs, p, q, r), s, t, b);
    }
  }

  lemma SplitKeys(T: Pages, n: nat, ks: seq<Key>, cs: seq<nat>, p: nat, q: nat, r: nat)
    requires n in T && p < |ks| && |cs| == |ks| + 1
    ensures InternalSplitPages(T, n, ks, cs, p, q, r).Keys == T.Keys + {r}
  {
  }

  /** A separator is given up: nothing is written, but less of the pages can be reached. */
  lemma LossView(P: Pages, b: Behind, x: Loss)
    requires x.Ready() && View(P, x.P, x.s, b)
    ensures View(P, x.Kept(), x.Rest(), BehindEdge(b, x))
    ensures Inv(x.c, x.Kept(), x.Rest(), x.root, {})
    ensures |x.s.levels| > 0 && |x.Rest().levels| > 0 && Chain(BehindEdge(b, x), x.Rest().levels[0]) == Chain(b, x.s.levels[0])
    ensures Carries(P, x.s, b, P, x.Rest(), BehindEdge(b, x))
  {
    hide Inv, Flat, Chain, NodeFits, Below, BehindEdge;
    x.RestIsTree();
    LossKeepsChain(b, x);
    ShowsKept(P, x);
    FirstStays(x);
    KeptKeys(x);
    if OrderedChain(P, x.s, b) {
      ShowsWhole(P, x);
      LossKeepsOrder(P, b, x);
    }
  }

  lemma KeptKeys(x: Loss)
    requires x.Ready()
    ensures x.Kept().Keys == x.Rest().level.Keys
  {
    hide Inv, NodeFits, Below;
  }

  lemma FirstStays(x: Loss)
    requires x.Ready()
    ensures |x.Rest().levels| > 0 && x.Rest().levels[0] != [] && |x.s.levels| > 0 && x.s.levels[0] != []
    ensures x.Rest().levels[0][0] == x.s.levels[0][0]
  {
    hide Inv, NodeFits, Below;
    x.RestLevel(0);
    x.Blocks(x.h);
    x.BlocksFilled(x.h);
  }

  lemma ShowsWhole(P: Pages, x: Loss)
    requires x.Open() && Shows(P, x.P)
    ensures SameEntries(P, x.Whole())
  {
    ShowsSame(P, x.P);
    hide NodeFits, Below;
  }
}
