/**
 One cut of an overfull node n of the B+ tree into n and a new right sibling r, linked
 below their parent q. The lemmas show that every part of the invariant survives; only
 the size of q may have become too large, so q takes over the exemption.

 A cut is described by what it does to the three pages: n and r share the entries (or keys
 and children) of n, q has the separator and r just behind n, and nothing else changes but
 the parent ids of the children that moved to r. It holds for leaves and internal nodes
 alike. The levels of the tree are sequences of page numbers; the cut puts r behind n in
 the level of n. The bounds of n are divided at the separator, which may equal keys on both
 sides, since equal keys may spread over several leaves. For every page of the tree a small
 lemma says why its links, bounds and place in the leaf chain are still right; CutKeepsInv
 puts them together.
 */
module BPlusSplit {
  import opened Common
  import opened BPlusPages
  import opened BPlusInvariant

  /** The parent page with separator and right sibling inserted just after child n. */
  function WithChild(page: Page, n: nat, sep: Key, r: nat): Page
    requires page.InternalPage? && n in page.children && |page.children| == |page.keys| + 1
  {
    var i := IndexOf(page.children, n);
    InternalPage(page.parent, InsertAt(page.keys, i, sep), InsertAt(page.children, i + 1, r))
  }

  predicate SamePayload(a: Page, b: Page) {
    match a
    case LeafPage(_, next, entries) => b.LeafPage? && b.next == next && b.entries == entries
    case InternalPage(_, keys, children) => b.InternalPage? && b.keys == keys && b.children == children
  }

  ghost predicate LeafHalves(c: Codec, a: Page, left: Page, right: Page, r: nat, sep: Key) {
    && a.LeafPage? && left.LeafPage? && right.LeafPage?
    && a.entries == left.entries + right.entries
    && |left.entries| >= 1 && |right.entries| >= 1 && sep == right.entries[0].key
    && left.next == Some(r) && right.next == a.next
    && LeafFits(c, left.entries) && LeafFits(c, right.entries)
  }

  ghost predicate InternalHalves(c: Codec, a: Page, left: Page, right: Page, sep: Key) {
    && a.InternalPage? && left.InternalPage? && right.InternalPage?
    && a.keys == left.keys + [sep] + right.keys
    && a.children == left.children + right.children
    && |left.children| == |left.keys| + 1 && |left.keys| >= 1
    && |right.children| == |right.keys| + 1 && |right.keys| >= 1
    && InternalFits(c, left.keys) && InternalFits(c, right.keys)
  }

  /** From pages P to pages Q: n is cut into n and r below q, at separator sep. */
  ghost predicate Cut(c: Codec, P: Pages, Q: Pages, n: nat, q: nat, r: nat, sep: Key) {
    && n in P && q in P && n != q && r !in P && r != 0
    && Q.Keys == P.Keys + {r}
    && P[q].InternalPage? && n in P[q].children && |P[q].children| == |P[q].keys| + 1
    && Q[q] == WithChild(P[q], n, sep, r)
    && P[n].parent == Some(q)
    && Q[n].parent == Some(q)
    && Q[r].parent == Some(q)
    && (LeafHalves(c, P[n], Q[n], Q[r], r, sep) || InternalHalves(c, P[n], Q[n], Q[r], sep))
    && q !in Children(P, n) && n !in Children(P, n)
    && (forall id {:trigger SamePayload(P[id], Q[id])} :: id in P && id != n && id != q ==>
          SamePayload(P[id], Q[id]))
    && (forall id {:trigger Q[id].parent} :: id in P && id != n && id != q ==>
          Q[id].parent == (if id in Children(Q, r) then Some(r) else P[id].parent))
  }

  lemma WithChildIsInsAfter(page: Page, n: nat, sep: Key, r: nat)
    requires page.InternalPage? && n in page.children && |page.children| == |page.keys| + 1
    ensures WithChild(page, n, sep, r).children == InsAfter(page.children, n, r)
  {
    InsAfterAt(page.children, IndexOf(page.children, n), r);
  }

  lemma CutKeysFitAlone(c: Codec, P: Pages, Q: Pages, n: nat, q: nat, r: nat, sep: Key, id: nat)
    requires Cut(c, P, Q, n, q, r, sep) && id in Q && FitsAlone(c, sep)
    requires KeysFitAlone(c, P[n]) && KeysFitAlone(c, P[q]) && (id in P ==> KeysFitAlone(c, P[id]))
    ensures KeysFitAlone(c, Q[id])
  {
    if id == q {
      ChildKeysFitAlone(c, P[q], n, sep, r);
    } else if id != n && id != r {
      assert SamePayload(P[id], Q[id]);
    } else {
      HalvesFitAlone(c, P[n], Q[n], Q[r], r, sep);
    }
  }

  lemma ChildKeysFitAlone(c: Codec, page: Page, n: nat, sep: Key, r: nat)
    requires page.InternalPage? && n in page.children && |page.children| == |page.keys| + 1
    requires KeysFitAlone(c, page) && FitsAlone(c, sep)
    ensures KeysFitAlone(c, WithChild(page, n, sep, r))
  {
    var i, ks := IndexOf(page.children, n), WithChild(page, n, sep, r).keys;
    forall j | 0 <= j < |ks|
      ensures FitsAlone(c, ks[j])
    {
      assert ks[j] == if j < i then page.keys[j] else if j == i then sep else page.keys[j - 1];
    }
  }

  lemma HalvesFitAlone(c: Codec, a: Page, left: Page, right: Page, r: nat, sep: Key)
    requires LeafHalves(c, a, left, right, r, sep) || InternalHalves(c, a, left, right, sep)
    requires KeysFitAlone(c, a)
    ensures KeysFitAlone(c, left) && KeysFitAlone(c, right)
  {
    if a.LeafPage? {
      assert forall j :: 0 <= j < |left.entries| ==> left.entries[j] == a.entries[j];
      assert forall j :: 0 <= j < |right.entries| ==> right.entries[j] == a.entries[|left.entries| + j];
    } else {
      assert forall j :: 0 <= j < |left.keys| ==> left.keys[j] == a.keys[j];
      assert forall j :: 0 <= j < |right.keys| ==> right.keys[j] == a.keys[|left.keys| + 1 + j];
    }
  }

  lemma ChildrenDistinct(c: Codec, P: Pages, s: Shape, root: nat, ex: set<nat>, n: nat, i: nat, j: nat)
    requires Inv(c, P, s, root, ex) && n in s.level
    requires i < j < |Children(P, n)|
    ensures Children(P, n)[i] != Children(P, n)[j]
  {
    hide LinksOk, SizesOk, BoundsOk, ChainOk;
    var h := s.level[n];
    assert OnLevel(s, n);
    assert NoDup(s.levels[h - 1]);
    assert Flat(ChildrenOf(P), s.levels[h]) == s.levels[h - 1];
    hide Flat, NoDup;
    DistinctIn(ChildrenOf(P), s.levels[h], IndexOf(s.levels[h], n), i, j);
  }

  lemma DistinctIn(f: nat -> seq<nat>, ids: seq<nat>, k: nat, i: nat, j: nat)
    requires NoDup(Flat(f, ids)) && k < |ids| && i < j < |f(ids[k])|
    ensures f(ids[k])[i] != f(ids[k])[j]
  {
    FlatAround(f, ids, k);
    var a := |Flat(f, ids[..k])|;
    assert Flat(f, ids)[a + i] == f(ids[k])[i];
    assert Flat(f, ids)[a + j] == f(ids[k])[j];
  }

  lemma InsertSorted(ks: seq<Key>, i: nat, k: Key)
    requires SortedKeys(ks) && i <= |ks|
    requires (i > 0 ==> ks[i - 1] <= k) && (i < |ks| ==> k <= ks[i])
    ensures SortedKeys(InsertAt(ks, i, k))
  {
  }

  /** A cut about to be made in a tree whose node n is overfull, and its outcome. */
  datatype Step = Step(c: Codec, P: Pages, Q: Pages, s: Shape, root: nat, ex: set<nat>,
                       n: nat, q: nat, r: nat, sep: Key)
  {
    ghost predicate Ready() {
      && Inv(c, P, s, root, ex) && Cut(c, P, Q, n, q, r, sep)
      && n in s.level && n != root
    }

    /** The shape afterwards: r stands right of n and takes over the upper end of its interval. */
    ghost function After(): Shape
      requires Ready()
    {
      var h := s.level[n];
      Shape(s.levels[h := InsAfter(s.levels[h], n, r)], s.level[r := h],
            s.lo[r := Fin(sep)], s.hi[r := s.hi[n]][n := Fin(sep)])
    }

    /** Where n and its parent stand. */
    lemma Places()
      requires Ready()
      ensures q in s.level && s.level[q] == s.level[n] + 1
      ensures n in s.levels[s.level[n]] && NoDup(s.levels[s.level[n]])
      ensures q in s.levels[s.level[n] + 1] && NoDup(s.levels[s.level[n] + 1])
      ensures r !in s.level && r !in s.levels[s.level[n]]
    {
      hide KidsOk, SizesOk, BoundsOk, ChainOk;
      assert ParentLinked(P, s, n);
      var j := IndexOf(P[q].children, n);
      assert ChildLinked(P, s, q, Children(P, q)[j]);
      assert OnLevel(s, n) && OnLevel(s, q);
      assert NoDup(s.levels[s.level[n]]) && NoDup(s.levels[s.level[n] + 1]);
    }

    lemma CutLevels()
      requires Ready()
      ensures LevelsOk(After(), root)
    {
      hide LinksOk, KidsOk, SizesOk, BoundsOk, ChainOk, LeafHalves, InternalHalves, WithChild, SamePayload;
      var h := s.level[n];
      var t := After();
      Places();
      assert forall g :: 0 <= g < |s.levels| ==> NoDup(s.levels[g]);
      InsAfterNoDup(s.levels[h], n, r);
      forall g, i | 0 <= g < |t.levels| && 0 <= i < |t.levels[g]|
        ensures t.levels[g][i] in t.level && t.level[t.levels[g][i]] == g
      {
        var x := t.levels[g][i];
        assert x in t.levels[g];
        if g == h {
          assert x in s.levels[h] || x == r;
        }
      }
      forall id | id in t.level
        ensures OnLevel(t, id)
      {
        if id != r {
          assert OnLevel(s, id);
        }
      }
    }

    lemma CutKinds()
      requires Ready()
      ensures KindsOk(Q, After())
    {
      hide LevelsOk, LinksOk, KidsOk, SizesOk, BoundsOk, ChainOk;
      var t := After();
      forall id | id in t.level
        ensures id in Q && id != 0
        ensures t.level[id] == 0 ==> Q[id].LeafPage?
        ensures t.level[id] > 0 ==> Q[id].InternalPage? && |Q[id].children| == |Q[id].keys| + 1
      {
        if id != r && id != n && id != q {
          assert SamePayload(P[id], Q[id]);
        }
      }
    }

    /** Away from n and q every node keeps its children. */
    lemma SameChildren(ids: seq<nat>)
      requires Ready() && forall x :: x in ids ==> x in P
      ensures forall x :: x in ids && x != n && x != q ==> ChildrenOf(P)(x) == ChildrenOf(Q)(x)
    {
      hide LevelsOk, KindsOk, LinksOk, KidsOk, SizesOk, BoundsOk, ChainOk;
      forall x | x in ids && x != n && x != q
        ensures ChildrenOf(P)(x) == ChildrenOf(Q)(x)
      {
        assert SamePayload(P[x], Q[x]);
      }
    }

    lemma LevelInPages(k: nat)
      requires Ready() && k < |s.levels|
      ensures forall x :: x in s.levels[k] ==> x in P && x in s.level && s.level[x] == k
    {
      hide LinksOk, KidsOk, SizesOk, BoundsOk, ChainOk;
    }

    lemma CutKids()
      requires Ready() && LevelsOk(After(), root)
      ensures KidsOk(Q, After())
    {
      hide KindsOk, LinksOk, SizesOk, BoundsOk, ChainOk;
      var t := After();
      forall k | 1 <= k < |t.levels|
        ensures Flat(ChildrenOf(Q), t.levels[k]) == t.levels[k - 1]
      {
        CutKidsAt(k);
      }
    }

    lemma CutKidsAt(k: nat)
      requires Ready() && 1 <= k < |s.levels|
      ensures Flat(ChildrenOf(Q), After().levels[k]) == After().levels[k - 1]
    {
      hide LinksOk, SizesOk, BoundsOk, ChainOk;
      var h := s.level[n];
      var f, g := ChildrenOf(P), ChildrenOf(Q);
      Places();
      LevelInPages(k);
      SameChildren(s.levels[k]);
      assert Flat(f, s.levels[k]) == s.levels[k - 1];
      if k == h {
        FlatCut(f, g, s.levels[k], n, r);
      } else if k == h + 1 {
        WithChildIsInsAfter(P[q], n, sep, r);
        FlatLink(f, g, s.levels[k], q, n, r);
      } else {
        FlatFrame(f, g, s.levels[k]);
      }
    }

    lemma CutLinks()
      requires Ready()
      ensures LinksOk(Q, After(), root)
    {
      hide LevelsOk, KidsOk, SizesOk, BoundsOk, ChainOk;
      var t := After();
      CutKinds();
      WithChildIsInsAfter(P[q], n, sep, r);
      forall id, j | id in t.level && 0 <= j < |Children(Q, id)|
        ensures ChildLinked(Q, t, id, Children(Q, id)[j])
      {
        CutChildLinked(id, j);
      }
      forall id | id in t.level && id != root
        ensures ParentLinked(Q, t, id)
      {
        CutParentLinked(id);
      }
      if root != q {
        NotGrandchild(root);
        assert SamePayload(P[root], Q[root]) && Q[root].parent == P[root].parent;
      }
    }

    lemma CutChildLinked(id: nat, j: nat)
      requires Ready()
      requires id in After().level && j < |Children(Q, id)|
      ensures ChildLinked(Q, After(), id, Children(Q, id)[j])
    {
      hide LevelsOk, KidsOk, SizesOk, BoundsOk, ChainOk;
      if id == n {
        LeftChildLinked(j);
      } else if id == r {
        RightChildLinked(j);
      } else if id == q {
        ParentChildLinked(j);
      } else {
        Places();
        assert SamePayload(P[id], Q[id]);
        assert ChildLinked(P, s, id, Children(P, id)[j]);
        SameParent(Children(P, id)[j]);
      }
    }

    /** A node whose stored parent is neither n nor missing keeps its parent. */
    lemma SameParent(x: nat)
      requires Ready() && x in P && x in s.level && P[x].parent != Some(n)
      ensures x in Q && Q[x].parent == P[x].parent
    {
      hide LevelsOk, LinksOk, KidsOk, SizesOk, BoundsOk, ChainOk;
      NotGrandchild(x);
      if x != n && x != q {
        assert SamePayload(P[x], Q[x]) && Q[x].parent == P[x].parent;
      }
    }

    lemma LeftChildLinked(j: nat)
      requires Ready() && j < |Children(Q, n)|
      ensures ChildLinked(Q, After(), n, Children(Q, n)[j])
    {
      hide LevelsOk, KidsOk, SizesOk, BoundsOk, ChainOk;
      var x := Children(Q, n)[j];
      assert x == Children(P, n)[j];
      assert ChildLinked(P, s, n, Children(P, n)[j]);
      forall i | 0 <= i < |Children(Q, r)|
        ensures Children(Q, r)[i] != x
      {
        assert Children(P, n)[|Children(Q, n)| + i] == Children(Q, r)[i];
        ChildrenDistinct(c, P, s, root, ex, n, j, |Children(Q, n)| + i);
      }
      assert SamePayload(P[x], Q[x]) && Q[x].parent == P[x].parent;
    }

    lemma RightChildLinked(j: nat)
      requires Ready() && j < |Children(Q, r)|
      ensures ChildLinked(Q, After(), r, Children(Q, r)[j])
    {
      hide LevelsOk, KidsOk, SizesOk, BoundsOk, ChainOk;
      var x := Children(Q, r)[j];
      var i := |Children(Q, n)| + j;
      assert x == Children(P, n)[i];
      assert ChildLinked(P, s, n, Children(P, n)[i]);
      assert SamePayload(P[x], Q[x]) && Q[x].parent == Some(r);
    }

    lemma ParentChildLinked(j: nat)
      requires Ready() && j < |Children(Q, q)|
      ensures q in After().level && ChildLinked(Q, After(), q, Children(Q, q)[j])
    {
      hide LevelsOk, KidsOk, SizesOk, BoundsOk, ChainOk;
      Places();
      var i := IndexOf(P[q].children, n);
      if j != i + 1 {
        var k := if j <= i then j else j - 1;
        assert Children(Q, q)[j] == Children(P, q)[k];
        assert ChildLinked(P, s, q, Children(P, q)[k]);
        SameParent(Children(P, q)[k]);
      }
    }

    /** A node whose stored parent is not n is not among the children given to r. */
    lemma NotGrandchild(x: nat)
      requires Ready()
      requires x in P && P[x].parent != Some(n)
      ensures x !in Children(Q, r)
    {
      hide LevelsOk, KindsOk, KidsOk, SizesOk, BoundsOk, ChainOk;
      forall i | 0 <= i < |Children(Q, r)|
        ensures Children(Q, r)[i] != x
      {
        assert Children(P, n)[|Children(Q, n)| + i] == Children(Q, r)[i];
        assert ChildLinked(P, s, n, Children(P, n)[|Children(Q, n)| + i]);
      }
    }

    lemma ParentKeepsChildren()
      requires Ready()
      ensures forall x :: x in P[q].children || x == r ==> x in Q[q].children
    {
      hide LevelsOk, KindsOk, LinksOk, KidsOk, SizesOk, BoundsOk, ChainOk;
      var i := IndexOf(P[q].children, n);
      forall x | x in P[q].children || x == r
        ensures x in Q[q].children
      {
        if x == r {
          assert Q[q].children[i + 1] == r;
        } else {
          var k := IndexOf(P[q].children, x);
          assert Q[q].children[if k <= i then k else k + 1] == x;
        }
      }
    }

    lemma CutParentLinked(id: nat)
      requires Ready()
      requires id in After().level && id != root
      ensures ParentLinked(Q, After(), id)
    {
      hide LevelsOk, KidsOk, SizesOk, BoundsOk, ChainOk;
      Places();
      ParentKeepsChildren();
      if id != n && id != r {
        assert ParentLinked(P, s, id);
        var p := P[id].parent.value;
        if p == n {
          GrandchildLinked(id);
        } else {
          SameParent(id);
          assert p != q ==> SamePayload(P[p], Q[p]);
        }
      }
    }

    /** A child of the node that was cut is now a child of the half its parent id names. */
    lemma GrandchildLinked(id: nat)
      requires Ready() && id in s.level && id in Children(P, n)
      ensures ParentLinked(Q, After(), id)
    {
      hide LevelsOk, KidsOk, SizesOk, BoundsOk, ChainOk;
      var k := IndexOf(Children(P, n), id);
      if k < |Children(Q, n)| {
        assert Children(Q, n)[k] == id;
        LeftChildLinked(k);
      } else {
        assert Children(Q, r)[k - |Children(Q, n)|] == id;
        RightChildLinked(k - |Children(Q, n)|);
      }
    }

    lemma CutSizes()
      requires Ready()
      ensures SizesOk(c, Q, After(), ex - {n} + {q})
    {
      hide LevelsOk, LinksOk, KidsOk, BoundsOk, ChainOk;
      var t := After();
      Places();
      assert KeysFitAlone(c, P[n]) && KeysFitAlone(c, P[q]);
      assert FitsAlone(c, sep) by {
        if P[n].LeafPage? {
          assert P[n].entries[|Q[n].entries|].key == sep;
        } else {
          assert P[n].keys[|Q[n].keys|] == sep;
        }
      }
      forall id | id in t.level && id in Q && id !in ex - {n} + {q}
        ensures NodeFits(c, Q[id])
      {
        if id != n && id != r {
          assert SamePayload(P[id], Q[id]) && NodeFits(c, P[id]);
        }
      }
      forall id | id in t.level && id in Q
        ensures KeysFitAlone(c, Q[id])
      {
        assert id in P ==> KeysFitAlone(c, P[id]);
        CutKeysFitAlone(c, P, Q, n, q, r, sep, id);
      }
    }

    lemma CutBounds()
      requires Ready()
      requires KindsOk(Q, After())
      ensures BoundsOk(Q, After(), root)
    {
      hide LinksOk, KidsOk, SizesOk, ChainOk;
      var t := After();
      SepInside();
      Places();
      forall id | id in t.level
        ensures IntervalOk(t, id)
      {
        assert IntervalOk(s, n);
        assert id != r ==> IntervalOk(s, id);
      }
      forall id | id in t.level && t.level[id] == 0
        ensures LeafBounds(Q, t, id)
      {
        if id == n || id == r {
          CutLeafBounds(id);
        } else {
          assert SamePayload(P[id], Q[id]);
          assert LeafBounds(P, s, id);
        }
      }
      forall id | id in t.level && t.level[id] > 0
        ensures NodeBounds(Q, t, id)
      {
        if id == n || id == r {
          CutNodeBounds(id);
        } else if id == q {
          CutParentBounds();
        } else {
          CutOtherBounds(id);
        }
      }
    }

    lemma SepInside()
      requires Ready()
      ensures Le(s.lo[n], Fin(sep)) && Le(Fin(sep), s.hi[n])
    {
      hide LinksOk, KidsOk, SizesOk, ChainOk;
      if P[n].LeafPage? {
        assert LeafBounds(P, s, n);
        assert Entries(P, n)[|Q[n].entries|].key == sep;
      } else {
        assert NodeBounds(P, s, n);
        assert P[n].keys[|Q[n].keys|] == sep;
      }
    }

    lemma CutLeafBounds(id: nat)
      requires Ready()
      requires s.level[n] == 0 && (id == n || id == r)
      ensures LeafBounds(Q, After(), id)
    {
      hide LinksOk, KidsOk, SizesOk, ChainOk;
      assert LeafBounds(P, s, n);
      var es, k := Entries(P, n), |Q[n].entries|;
      var off := if id == n then 0 else k;
      assert es[k].key == sep;
      forall j | 0 <= j < |Entries(Q, id)|
        ensures Entries(Q, id)[j] == es[off + j]
        ensures if id == n then Entries(Q, id)[j].key <= sep else sep <= Entries(Q, id)[j].key
      {
        assert off + j < k ==> EntryLe(es[off + j], es[k]);
        assert off + j > k ==> EntryLe(es[k], es[off + j]);
      }
    }

    lemma CutNodeKeys(id: nat)
      requires Ready() && KindsOk(Q, After())
      requires s.level[n] > 0 && (id == n || id == r)
      ensures SortedKeys(Q[id].keys)
      ensures forall j :: 0 <= j < |Q[id].keys| ==> Le(After().lo[id], Fin(Q[id].keys[j])) && Le(Fin(Q[id].keys[j]), After().hi[id])
    {
      hide LinksOk, KidsOk, SizesOk, ChainOk;
      assert NodeBounds(P, s, n);
      var ks, k := P[n].keys, |Q[n].keys|;
      assert ks[k] == sep;
      var off := if id == n then 0 else k + 1;
      assert forall j :: 0 <= j < |Q[id].keys| ==> Q[id].keys[j] == ks[off + j];
    }

    lemma CutNodeBounds(id: nat)
      requires Ready()
      requires KindsOk(Q, After())
      requires s.level[n] > 0 && (id == n || id == r)
      ensures NodeBounds(Q, After(), id)
    {
      hide LinksOk, KidsOk, SizesOk, ChainOk, BoundsOk, SortedKeys, Le, ChildBounds, InsAfter;
      CutNodeKeys(id);
      forall j | 0 <= j < |Q[id].children|
        ensures ChildBounds(After(), id, Q[id].keys, Q[id].children[j], j)
      {
        CutChildBounds(id, j);
      }
    }

    lemma CutChildBounds(id: nat, j: nat)
      requires Ready()
      requires KindsOk(Q, After())
      requires s.level[n] > 0 && (id == n || id == r) && j < |Q[id].children|
      ensures ChildBounds(After(), id, Q[id].keys, Q[id].children[j], j)
    {
      hide KidsOk, SizesOk, ChainOk;
      assert NodeBounds(P, s, n);
      var ks, cs := P[n].keys, P[n].children;
      var off := if id == n then 0 else |Q[n].keys| + 1;
      assert ks[|Q[n].keys|] == sep;
      assert Q[id].children[j] == cs[off + j];
      assert j > 0 ==> Q[id].keys[j - 1] == ks[off + j - 1];
      assert j < |Q[id].keys| ==> Q[id].keys[j] == ks[off + j];
      assert ChildBounds(s, n, ks, cs[off + j], off + j);
      assert ChildLinked(P, s, n, Children(P, n)[off + j]);
    }

    lemma CutParentBounds()
      requires Ready() && KindsOk(Q, After())
      ensures q in s.level && NodeBounds(Q, After(), q)
    {
      hide LinksOk, KidsOk, SizesOk, ChainOk;
      var t := After();
      Places();
      SepInside();
      assert NodeBounds(P, s, q);
      var ks, cs, i := P[q].keys, P[q].children, IndexOf(P[q].children, n);
      var ks', cs' := Q[q].keys, Q[q].children;
      assert ChildBounds(s, q, ks, cs[i], i);
      assert IntervalOk(s, q);
      InsertSorted(ks, i, sep);
      forall j | 0 <= j < |ks'|
        ensures Le(s.lo[q], Fin(ks'[j])) && Le(Fin(ks'[j]), s.hi[q])
      {
        assert ks'[j] == if j < i then ks[j] else if j == i then sep else ks[j - 1];
      }
      forall j | 0 <= j < |cs'|
        ensures ChildBounds(t, q, ks', cs'[j], j)
      {
        CutSiblingBounds(j);
      }
    }

    lemma CutSiblingBounds(j: nat)
      requires Ready() && KindsOk(Q, After()) && q in s.level && j < |Q[q].children|
      ensures ChildBounds(After(), q, Q[q].keys, Q[q].children[j], j)
    {
      hide LinksOk, KidsOk, SizesOk, ChainOk, LeafHalves, InternalHalves;
      var i := IndexOf(P[q].children, n);
      if j < i {
        SiblingKept(j, j);
      } else if j > i + 1 {
        SiblingKept(j - 1, j);
      } else {
        Places();
        assert NodeBounds(P, s, q);
        assert ChildBounds(s, q, P[q].keys, P[q].children[i], i);
      }
    }

    lemma SiblingKept(k: nat, j: nat)
      requires Ready() && KindsOk(Q, After()) && q in s.level
      requires k < |P[q].children| && k != IndexOf(P[q].children, n)
      requires j == if k < IndexOf(P[q].children, n) then k else k + 1
      ensures ChildBounds(After(), q, Q[q].keys, Q[q].children[j], j)
    {
      hide LinksOk, KidsOk, SizesOk, ChainOk, LeafHalves, InternalHalves;
      Places();
      SiblingDistinct(k);
      assert NodeBounds(P, s, q);
      assert ChildBounds(s, q, P[q].keys, P[q].children[k], k);
    }

    lemma SiblingDistinct(k: nat)
      requires Ready() && q in s.level
      requires k < |P[q].children| && k != IndexOf(P[q].children, n)
      ensures P[q].children[k] != n && P[q].children[k] != r
    {
      hide KidsOk, SizesOk, BoundsOk, ChainOk, LeafHalves, InternalHalves;
      var i := IndexOf(P[q].children, n);
      assert ChildLinked(P, s, q, Children(P, q)[k]);
      ChildrenDistinct(c, P, s, root, ex, q, if k < i then k else i, if k < i then i else k);
    }

    lemma CutOtherBounds(id: nat)
      requires Ready()
      requires KindsOk(Q, After())
      requires id in s.level && s.level[id] > 0 && id != n && id != q
      ensures NodeBounds(Q, After(), id)
    {
      hide KidsOk, SizesOk, ChainOk;
      var t := After();
      assert SamePayload(P[id], Q[id]);
      assert NodeBounds(P, s, id);
      forall j | 0 <= j < |Q[id].children|
        ensures ChildBounds(t, id, Q[id].keys, Q[id].children[j], j)
      {
        assert ChildBounds(s, id, P[id].keys, P[id].children[j], j);
        assert ChildLinked(P, s, id, Children(P, id)[j]);
      }
    }

    lemma CutChain()
      requires Ready()
      requires LevelsOk(After(), root) && KindsOk(Q, After())
      ensures ChainOk(Q, After())
    {
      hide LinksOk, KidsOk, SizesOk, BoundsOk;
      var t := After();
      forall i | 0 <= i < |t.levels[0]|
        ensures LeafLinked(Q, t, i)
      {
        if s.level[n] == 0 {
          CutChainAt(i);
        } else {
          Places();
          assert LeafLinked(P, s, i);
          assert SamePayload(P[s.levels[0][i]], Q[s.levels[0][i]]);
        }
      }
    }

    /** The chain link out of leaf i, when a leaf was cut. */
    lemma CutChainAt(i: nat)
      requires Ready() && s.level[n] == 0 && i < |After().levels[0]|
      requires LevelsOk(After(), root) && KindsOk(Q, After())
      ensures LeafLinked(Q, After(), i)
    {
      hide LinksOk, KidsOk, SizesOk, BoundsOk;
      Places();
      var L, L' := s.levels[0], After().levels[0];
      var k := IndexOf(L, n);
      InsAfterAt(L, k, r);
      assert L' == L[..k + 1] + [r] + L[k + 1..];
      assert LeafLinked(P, s, k);
      if i != k && i != k + 1 {
        var m := if i < k then i else i - 1;
        assert L'[i] == L[m] && (i + 1 < |L'| ==> L'[i + 1] == L[m + 1]);
        assert LeafLinked(P, s, m);
        assert SamePayload(P[L[m]], Q[L[m]]);
        assert L[m] != n && L[m] != r;
      }
    }

    /** The split lemma: a cut keeps the invariant and moves the exemption to the parent. */
    lemma CutKeepsInv()
      requires Ready()
      ensures Inv(c, Q, After(), root, ex - {n} + {q})
    {
      hide LevelsOk, KindsOk, LinksOk, KidsOk, SizesOk, BoundsOk, ChainOk;
      CutLevels();
      CutKinds();
      CutKids();
      CutLinks();
      CutSizes();
      CutBounds();
      CutChain();
    }

    lemma SameEntries()
      requires Ready()
      ensures forall x :: x in P && x != n ==> Entries(P, x) == Entries(Q, x)
      ensures Entries(P, n) == Entries(Q, n) + Entries(Q, r)
    {
      hide LevelsOk, KindsOk, LinksOk, KidsOk, SizesOk, BoundsOk, ChainOk;
      forall x | x in P && x != n
        ensures Entries(P, x) == Entries(Q, x)
      {
        assert x != q ==> SamePayload(P[x], Q[x]);
      }
    }

    /** No cut loses, duplicates or reorders an entry. */
    lemma CutKeepsEntries()
      requires Ready()
      ensures AllEntries(Q, After().levels[0]) == AllEntries(P, s.levels[0])
    {
      hide LinksOk, KidsOk, SizesOk, BoundsOk, ChainOk;
      Places();
      SameEntries();
      if s.level[n] == 0 {
        FlatCut(EntriesOf(P), EntriesOf(Q), s.levels[0], n, r);
      } else {
        FlatFrame(EntriesOf(P), EntriesOf(Q), s.levels[0]);
      }
    }
  }
}
