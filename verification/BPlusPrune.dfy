/**
 What is left of the tree when a separator cannot be entered: the new right sibling r of n
 and everything below it hang on no parent, so the tree that a descent can reach is the one
 without them. These lemmas show that the rest satisfies the whole invariant: n takes over
 the interval of r, and so do the last nodes below n, down to the last leaf.

 The nodes below r form one block on every level. On the level of n the block is r itself, on
 each level further down the children of the block above it; what stands left and right of
 the block closes up. The leaves of the block stay in the leaf chain, between the last leaf
 below n and the leaf that follows them.
 */
module BPlusPrune {
  import opened Common
  import opened BPlusPages
  import opened BPlusInvariant
  import opened BPlusSplit
  import opened BPlusLemmas
  import opened BPlusSteps

  /** The nodes k levels below these, from left to right. */
  function Below(P: Pages, ids: seq<nat>, k: nat): seq<nat> {
    if k == 0 then ids else Flat(ChildrenOf(P), Below(P, ids, k - 1))
  }

  lemma {:induction false} BelowAppend(P: Pages, a: seq<nat>, b: seq<nat>, k: nat)
    ensures Below(P, a + b, k) == Below(P, a, k) + Below(P, b, k)
  {
    if k > 0 {
      BelowAppend(P, a, b, k - 1);
      FlatAppend(ChildrenOf(P), Below(P, a, k - 1), Below(P, b, k - 1));
    }
  }

  /** A level is what lies below the levels above it. */
  lemma {:induction false} BelowLevel(P: Pages, s: Shape, h: nat, k: nat)
    requires KidsOk(P, s) && h < |s.levels| && k <= h
    ensures Below(P, s.levels[h], k) == s.levels[h - k]
  {
    if k > 0 {
      BelowLevel(P, s, h, k - 1);
      assert Flat(ChildrenOf(P), s.levels[h - k + 1]) == s.levels[h - k];
    }
  }

  function Last(ids: seq<nat>): nat
    requires ids != []
  {
    ids[|ids| - 1]
  }

  lemma FlatLast(f: nat -> seq<nat>, ids: seq<nat>)
    requires ids != [] && f(Last(ids)) != []
    ensures Flat(f, ids) != [] && Last(Flat(f, ids)) == Last(f(Last(ids)))
  {
    FlatAround(f, ids, |ids| - 1);
    assert ids[|ids|..] == [];
  }

  lemma {:induction false} FlatMember<T>(f: nat -> seq<T>, ids: seq<nat>, e: T) returns (id: nat)
    requires e in Flat(f, ids)
    ensures id in ids && e in f(id)
  {
    if e in f(ids[0]) {
      id := ids[0];
    } else {
      id := FlatMember(f, ids[1..], e);
    }
  }

  lemma {:induction false} MemberFlat<T>(f: nat -> seq<T>, ids: seq<nat>, id: nat, e: T)
    requires id in ids && e in f(id)
    ensures e in Flat(f, ids)
  {
    if id != ids[0] {
      MemberFlat(f, ids[1..], id, e);
    }
  }

  /** A cut whose separator cannot be entered in q; r stands on level h between a, which ends in n, and b. */
  datatype Loss = Loss(c: Codec, P: Pages, s: Shape, root: nat, q: nat, n: nat, sep: Key, r: nat, h: nat, a: seq<nat>, b: seq<nat>)
  {
    ghost predicate Open() {
      && q in P && P[q].InternalPage? && n in P[q].children && |P[q].children| == |P[q].keys| + 1
      && NodeFits(c, P[q]) && P.Keys == s.level.Keys && s.lo.Keys == s.level.Keys && s.hi.Keys == s.level.Keys
      && q in s.level && n in s.level && r in s.level && q != n && q != r && n != r
      && s.level[q] == h + 1 && s.level[n] == h && s.level[r] == h && h + 1 < |s.levels|
      && s.levels[h] == a + [r] + b && a != [] && Last(a) == n
    }

    ghost predicate Ready() {
      && Open()
      && Inv(c, Whole(), s, root, {q})
    }

    /** The pages as if the separator had been entered. */
    ghost function Whole(): Pages
      requires Open()
    {
      LinkChild(P, q, n, sep, r)
    }

    ghost function Left(k: nat): seq<nat>
      requires Open()
    {
      Below(Whole(), a, k)
    }

    ghost function Gone(k: nat): seq<nat>
      requires Open()
    {
      Below(Whole(), [r], k)
    }

    ghost function Right(k: nat): seq<nat>
      requires Open()
    {
      Below(Whole(), b, k)
    }

    ghost predicate Lost(id: nat)
      requires Open()
    {
      id in s.level && s.level[id] <= h && id in Gone(h - s.level[id])
    }

    /** The node is the last one below n on its level. */
    ghost predicate Edge(id: nat)
      requires Open()
    {
      id in s.level && s.level[id] <= h && Left(h - s.level[id]) != [] && id == Last(Left(h - s.level[id]))
    }

    ghost function Rest(): Shape
      requires Open()
    {
      Shape(seq(|s.levels|, i requires 0 <= i < |s.levels| => if i <= h then Left(h - i) + Right(h - i) else s.levels[i]),
            map id | id in s.level && !Lost(id) :: s.level[id],
            map id | id in s.level && !Lost(id) :: s.lo[id],
            map id | id in s.level && !Lost(id) :: if Edge(id) then s.hi[r] else s.hi[id])
    }

    /** The pages a descent can reach, the chain of leaves closed over the gap. */
    ghost function Kept(): Pages
      requires Open()
    {
      map id | id in P && !Lost(id) ::
        if Edge(id) && s.level[id] == 0 && P[id].LeafPage?
        then LeafPage(P[id].parent, if Right(h) == [] then None else Some(Right(h)[0]), P[id].entries)
        else P[id]
    }

    // ----- the blocks -----

    /** Each level from that of n downwards is left block, lost block, right block. */
    lemma Blocks(k: nat)
      requires Ready() && k <= h
      ensures s.levels[h - k] == Left(k) + Gone(k) + Right(k)
      ensures NoDup(s.levels[h - k])
      ensures forall x :: x in s.levels[h - k] <==> x in s.level && s.level[x] == h - k
    {
      hide KindsOk, LinksOk, SizesOk, BoundsOk, ChainOk;
      BelowLevel(Whole(), s, h, k);
      BelowAppend(Whole(), a + [r], b, k);
      BelowAppend(Whole(), a, [r], k);
      assert NoDup(s.levels[h - k]);
      forall x | x in s.level && s.level[x] == h - k
        ensures x in s.levels[h - k]
      {
        assert OnLevel(s, x);
      }
    }

    /** A node of the level stands in exactly one block. */
    lemma OneBlock(k: nat, x: nat)
      requires Ready() && k <= h
      ensures x in Left(k) ==> x !in Gone(k) && x !in Right(k)
      ensures x in Gone(k) ==> x !in Right(k)
      ensures x in s.level && s.level[x] == h - k <==> x in Left(k) || x in Gone(k) || x in Right(k)
    {
      Blocks(k);
      NotTwice(Left(k), Gone(k), Right(k), x);
    }

    /** No node is without children, so no block but the right one can be empty. */
    lemma NonEmpty(ids: seq<nat>, k: nat)
      requires Ready() && ids != [] && k <= h && forall x :: x in ids ==> x in s.level && s.level[x] == h
      ensures Below(Whole(), ids, k) != []
      ensures forall x :: x in Below(Whole(), ids, k) ==> x in s.level && s.level[x] == h - k
      decreases k
    {
      hide Inv, NodeFits, Flat, Children;
      if k > 0 {
        NonEmpty(ids, k - 1);
        NextBelow(Below(Whole(), ids, k - 1), h - k + 1);
      }
    }

    /** The children of nodes of a level above the leaves. */
    lemma NextBelow(ids: seq<nat>, g: nat)
      requires Ready() && ids != [] && g > 0 && forall x :: x in ids ==> x in s.level && s.level[x] == g
      ensures Flat(ChildrenOf(Whole()), ids) != []
      ensures Last(Flat(ChildrenOf(Whole()), ids)) == Last(ChildrenOf(Whole())(Last(ids)))
      ensures forall x :: x in Flat(ChildrenOf(Whole()), ids) ==> x in s.level && s.level[x] + 1 == g
      ensures ChildrenOf(Whole())(Last(ids)) != []
    {
      hide Inv, NodeFits, Flat, Children;
      ChildrenThere(Last(ids));
      FlatLast(ChildrenOf(Whole()), ids);
      forall x | x in Flat(ChildrenOf(Whole()), ids)
        ensures x in s.level && s.level[x] + 1 == g
      {
        var id := FlatMember(ChildrenOf(Whole()), ids, x);
        ChildPlace(id, x);
      }
    }

    /** The last node below some nodes is the last one below the last of them. */
    lemma LastBelow(ids: seq<nat>, k: nat)
      requires Ready() && ids != [] && k <= h && forall x :: x in ids ==> x in s.level && s.level[x] == h
      ensures Below(Whole(), ids, k) != [] && Below(Whole(), [Last(ids)], k) != []
      ensures Last(Below(Whole(), ids, k)) == Last(Below(Whole(), [Last(ids)], k))
      decreases k
    {
      hide Inv, NodeFits, Flat, Children;
      NonEmpty(ids, k);
      NonEmpty([Last(ids)], k);
      if k > 0 {
        LastBelow(ids, k - 1);
        NonEmpty(ids, k - 1);
        NonEmpty([Last(ids)], k - 1);
        NextBelow(Below(Whole(), ids, k - 1), h - k + 1);
        NextBelow(Below(Whole(), [Last(ids)], k - 1), h - k + 1);
      }
    }

    lemma ChildrenThere(id: nat)
      requires Ready() && id in s.level && s.level[id] > 0
      ensures Children(Whole(), id) != [] && ChildrenOf(Whole())(id) == Children(Whole(), id)
    {
      hide LevelsOk, LinksOk, KidsOk, SizesOk, BoundsOk, ChainOk;
      assert id in Whole();
    }

    lemma ChildPlace(id: nat, x: nat)
      requires Ready() && id in s.level && x in Children(Whole(), id)
      ensures x in s.level && s.level[x] + 1 == s.level[id] && x in Whole() && Whole()[x].parent == Some(id)
    {
      hide LevelsOk, KidsOk, SizesOk, BoundsOk, ChainOk;
      var j := IndexOf(Children(Whole(), id), x);
      assert ChildLinked(Whole(), s, id, Children(Whole(), id)[j]);
    }

    /** No block but the right one is empty. */
    lemma BlocksFilled(k: nat)
      requires Ready() && k <= h
      ensures Left(k) != [] && Gone(k) != [] && Below(Whole(), [n], k) != []
      ensures Last(Left(k)) == Last(Below(Whole(), [n], k))
      ensures forall x :: x in Left(k) + Gone(k) + Right(k) ==> x in s.level && s.level[x] == h - k
    {
      hide KindsOk, LinksOk, KidsOk, SizesOk, BoundsOk, ChainOk;
      Blocks(k);
      forall x | x in a
        ensures x in s.level && s.level[x] == h
      {
        assert x in s.levels[h];
      }
      NonEmpty(a, k);
      LastBelow(a, k);
      NonEmpty([r], k);
    }

    /** The last node of a subtree ends where the subtree ends. */
    lemma RightEdge(x: nat, k: nat)
      requires Ready() && k <= h && x in s.level && s.level[x] == h
      ensures Below(Whole(), [x], k) != [] && Last(Below(Whole(), [x], k)) in s.hi
      ensures s.hi[Last(Below(Whole(), [x], k))] == s.hi[x]
      decreases k
    {
      hide Inv, NodeFits, Flat;
      NonEmpty([x], k);
      if k > 0 {
        RightEdge(x, k - 1);
        var up := Below(Whole(), [x], k - 1);
        NonEmpty([x], k - 1);
        assert up[|up| - 1] in up;
        NextBelow(up, h - k + 1);
        LastChildEnds(Last(up));
      }
    }

    lemma LastChildEnds(id: nat)
      requires Ready() && id in s.level && s.level[id] > 0
      ensures Children(Whole(), id) != []
      ensures Last(Children(Whole(), id)) in s.hi && s.hi[Last(Children(Whole(), id))] == s.hi[id]
    {
      hide KidsOk, SizesOk, ChainOk, LinksOk;
      assert NodeBounds(Whole(), s, id);
      var cs, ks := Whole()[id].children, Whole()[id].keys;
      assert ChildBounds(s, id, ks, cs[|cs| - 1], |cs| - 1);
    }

    /** Everything below r lies in the interval of r. */
    lemma GoneInside(k: nat, x: nat)
      requires Ready() && k <= h && x in Gone(k)
      ensures x in s.level && Le(s.lo[r], s.lo[x]) && Le(s.hi[x], s.hi[r])
      decreases k
    {
      hide LevelsOk, KidsOk, SizesOk, ChainOk;
      if k > 0 {
        var id := FlatMember(ChildrenOf(Whole()), Gone(k - 1), x);
        GoneInside(k - 1, id);
        ChildInside(id, x);
      }
    }

    lemma ChildInside(id: nat, x: nat)
      requires Ready() && id in s.level && x in Children(Whole(), id)
      ensures x in s.level && Le(s.lo[id], s.lo[x]) && Le(s.hi[x], s.hi[id])
    {
      hide LevelsOk, KidsOk, SizesOk, ChainOk;
      ChildPlace(id, x);
      assert NodeBounds(Whole(), s, id);
      var j := IndexOf(Whole()[id].children, x);
      assert ChildBounds(s, id, Whole()[id].keys, Whole()[id].children[j], j);
    }

    /** n ends and r begins at the separator. */
    lemma Between()
      requires Ready()
      ensures s.hi[n] == Fin(sep) == s.lo[r] && Le(s.lo[n], s.hi[n]) && Le(Fin(sep), s.hi[r])
    {
      hide LevelsOk, LinksOk, KidsOk, SizesOk, ChainOk;
      var i := IndexOf(P[q].children, n);
      var cs, ks := Whole()[q].children, Whole()[q].keys;
      assert NodeBounds(Whole(), s, q);
      assert ChildBounds(s, q, ks, cs[i], i) && ChildBounds(s, q, ks, cs[i + 1], i + 1);
      assert IntervalOk(s, r) && IntervalOk(s, n);
    }

    // ----- the rest is a tree -----

    lemma RestLevels()
      requires Ready()
      ensures LevelsOk(Rest(), root)
    {
      hide KindsOk, LinksOk, KidsOk, SizesOk, BoundsOk, ChainOk;
      var t := Rest();
      assert s.levels[|s.levels| - 1][0] == root;
      forall g, i | 0 <= g < |t.levels| && 0 <= i < |t.levels[g]|
        ensures t.levels[g][i] in t.level && t.level[t.levels[g][i]] == g
      {
        RestMember(g, t.levels[g][i]);
      }
      forall id | id in t.level
        ensures t.level[id] < |t.levels| && OnLevel(t, id)
      {
        assert OnLevel(s, id);
        RestMember(s.level[id], id);
      }
      forall g | 0 <= g < |t.levels|
        ensures NoDup(t.levels[g])
      {
        assert NoDup(s.levels[g]);
        if g <= h {
          Blocks(h - g);
          NoDupOuter(Left(h - g), Gone(h - g), Right(h - g));
        }
      }
    }

    lemma RestLevel(g: nat)
      requires Open() && g < |s.levels|
      ensures |Rest().levels| == |s.levels|
      ensures Rest().levels[g] == if g <= h then Left(h - g) + Right(h - g) else s.levels[g]
    {
    }

    lemma RestMember(g: nat, x: nat)
      requires Ready() && g < |s.levels|
      ensures |Rest().levels| == |s.levels|
      ensures x in Rest().levels[g] <==> x in s.level && s.level[x] == g && !Lost(x)
    {
      hide Inv, Rest, NodeFits, Below;
      RestLevel(g);
      if g <= h {
        OneBlock(h - g, x);
      } else {
        OnItsLevel(g, x);
      }
    }

    lemma OnItsLevel(g: nat, x: nat)
      requires Ready() && g < |s.levels|
      ensures x in s.levels[g] <==> x in s.level && s.level[x] == g
    {
      hide KindsOk, LinksOk, KidsOk, SizesOk, BoundsOk, ChainOk;
      assert x in s.level ==> OnLevel(s, x);
    }

    /** The pages that stay are those of the shape. */
    lemma KeptIsRest(id: nat)
      requires Ready()
      ensures id in Kept() <==> id in Rest().level
      ensures id in Kept() ==> id in s.level && !Lost(id) && Rest().level[id] == s.level[id] && Kept()[id].parent == P[id].parent
      ensures id in Kept() ==> Children(Kept(), id) == Children(P, id) && Entries(Kept(), id) == Entries(P, id)
      ensures id in Kept() && id != q ==> Children(P, id) == Children(Whole(), id) && P[id] == Whole()[id]
    {
      hide Inv, NodeFits, Below, Edge, WithChild;
    }

    lemma RestKinds()
      requires Ready()
      ensures KindsOk(Kept(), Rest())
    {
      hide LevelsOk, LinksOk, KidsOk, SizesOk, BoundsOk, ChainOk;
      forall id | id in Rest().level
        ensures id in Kept() && id != 0
        ensures Rest().level[id] == 0 ==> Kept()[id].LeafPage?
        ensures Rest().level[id] > 0 ==> Kept()[id].InternalPage? && |Kept()[id].children| == |Kept()[id].keys| + 1
      {
        assert id in Whole();
      }
    }

    /** Without r, the children of the level above are the other nodes of its level. */
    lemma OtherChildren()
      requires Ready()
      ensures Flat(ChildrenOf(P), s.levels[h + 1]) == a + b
    {
      hide Inv, NodeFits, Flat, NoDup;
      var f, g, ids := ChildrenOf(P), ChildrenOf(Whole()), s.levels[h + 1];
      LevelsAbove();
      var i, j := IndexOf(ids, q), IndexOf(P[q].children, n);
      NotBeforeOrAfter(ids, i);
      FlatAround(f, ids, i);
      FlatAround(g, ids, i);
      FlatFrame(f, g, ids[..i]);
      FlatFrame(f, g, ids[i + 1..]);
      var A, B, cs := Flat(f, ids[..i]), Flat(f, ids[i + 1..]), P[q].children;
      assert f(q) == cs && g(q) == cs[..j + 1] + [r] + cs[j + 1..];
      SplitAround(s.levels[h], a, b, A, cs, j + 1, B, r);
    }

    lemma LevelsAbove()
      requires Ready()
      ensures q in s.levels[h + 1] && NoDup(s.levels[h + 1]) && NoDup(s.levels[h])
      ensures Flat(ChildrenOf(Whole()), s.levels[h + 1]) == s.levels[h]
    {
      hide KindsOk, LinksOk, SizesOk, BoundsOk, ChainOk;
      assert OnLevel(s, q);
      assert NoDup(s.levels[h + 1]) && NoDup(s.levels[h]);
    }

    lemma RestKids()
      requires Ready()
      ensures KidsOk(Kept(), Rest())
    {
      var t := Rest();
      assert |t.levels| == |s.levels|;
      hide Inv, Rest, Kept, Flat;
      forall k | 1 <= k < |t.levels|
        ensures Flat(ChildrenOf(Kept()), t.levels[k]) == t.levels[k - 1]
      {
        RestKidsAt(k);
      }
    }

    lemma RestChildren(g: nat)
      requires Ready() && g < |s.levels|
      ensures forall x :: x in Rest().levels[g] ==>
                ChildrenOf(Kept())(x) == ChildrenOf(P)(x) && (g != h + 1 ==> ChildrenOf(Kept())(x) == ChildrenOf(Whole())(x))
    {
      hide KindsOk, LinksOk, KidsOk, SizesOk, BoundsOk, ChainOk;
      forall x | x in Rest().levels[g]
        ensures ChildrenOf(Kept())(x) == ChildrenOf(P)(x)
        ensures g != h + 1 ==> ChildrenOf(Kept())(x) == ChildrenOf(Whole())(x)
      {
        RestMember(g, x);
        KeptIsRest(x);
      }
    }

    lemma WholeKids(k: nat)
      requires Ready() && 1 <= k < |s.levels|
      ensures Flat(ChildrenOf(Whole()), s.levels[k]) == s.levels[k - 1]
    {
      hide LevelsOk, KindsOk, LinksOk, SizesOk, BoundsOk, ChainOk;
    }

    lemma RestKidsAt(k: nat)
      requires Ready() && 1 <= k < |s.levels|
      ensures Flat(ChildrenOf(Kept()), Rest().levels[k]) == Rest().levels[k - 1]
    {
      hide Inv, Rest, Kept, Flat, NodeFits;
      WholeKids(k);
      RestLevel(k);
      RestLevel(k - 1);
      RestChildren(k);
      var f := ChildrenOf(Kept());
      if k <= h {
        FlatAppend(f, Left(h - k), Right(h - k));
        FlatFrame(f, ChildrenOf(Whole()), Left(h - k));
        FlatFrame(f, ChildrenOf(Whole()), Right(h - k));
      } else if k == h + 1 {
        OtherChildren();
        FlatFrame(f, ChildrenOf(P), s.levels[k]);
      } else {
        FlatFrame(f, ChildrenOf(Whole()), s.levels[k]);
      }
    }

    /** A child is lost exactly when its parent is, but for r itself. */
    lemma LostTogether(id: nat, x: nat)
      requires Ready() && id in s.level && x in Children(Whole(), id) && x != r
      ensures x in s.level && (Lost(x) <==> Lost(id))
    {
      hide LevelsOk, KindsOk, LinksOk, SizesOk, BoundsOk, ChainOk, KidsOk;
      ChildPlace(id, x);
      var k := h - s.level[x];
      if s.level[id] <= h && id in Gone(k - 1) {
        MemberFlat(ChildrenOf(Whole()), Gone(k - 1), id, x);
      }
      if s.level[x] <= h && x in Gone(k) {
        if k > 0 {
          var up := FlatMember(ChildrenOf(Whole()), Gone(k - 1), x);
          OneBlock(k - 1, up);
          ChildPlace(up, x);
        }
      }
    }

    lemma RestLinks()
      requires Ready()
      ensures LinksOk(Kept(), Rest(), root)
    {
      var t := Rest();
      hide Inv, Rest, Kept, ChildLinked, ParentLinked, Lost;
      forall id, j | id in t.level && 0 <= j < |Children(Kept(), id)|
        ensures ChildLinked(Kept(), t, id, Children(Kept(), id)[j])
      {
        KeptIsRest(id);
        KeptChild(id, Children(P, id)[j]);
      }
      forall id | id in t.level && id != root
        ensures ParentLinked(Kept(), t, id)
      {
        KeptIsRest(id);
        KeptParent(id);
      }
      RootKept();
    }

    lemma KeptChild(id: nat, x: nat)
      requires Ready() && id in Kept() && x in Children(P, id)
      ensures ChildLinked(Kept(), Rest(), id, x)
    {
      hide LevelsOk, KindsOk, KidsOk, SizesOk, BoundsOk, ChainOk, LinksOk;
      KeptIsRest(id);
      if id == q {
        ChildOfParent(x);
      }
      ChildPlace(id, x);
      assert x != r by {
        if x == r && id != q {
          ChildOfParent(r);
          ChildPlace(q, r);
        }
      }
      LostTogether(id, x);
      KeptIsRest(x);
    }

    /** q has r as a child only when the separator is entered. */
    lemma ChildOfParent(x: nat)
      requires Ready() && (x in P[q].children || x == r)
      ensures x in Children(Whole(), q) && (x in P[q].children ==> x != r)
    {
      hide LevelsOk, LinksOk, KindsOk, KidsOk, SizesOk, BoundsOk, ChainOk;
      var i, cs, all := IndexOf(P[q].children, n), P[q].children, Whole()[q].children;
      assert all[i + 1] == r;
      if x in cs {
        var k := IndexOf(cs, x);
        var m := if k <= i then k else k + 1;
        assert all[m] == x;
        ChildrenDistinct(c, Whole(), s, root, {q}, q, if m < i + 1 then m else i + 1, if m < i + 1 then i + 1 else m);
      }
    }

    lemma KeptParent(id: nat)
      requires Ready() && id in Kept() && id != root
      ensures ParentLinked(Kept(), Rest(), id)
    {
      hide LevelsOk, KindsOk, KidsOk, SizesOk, BoundsOk, ChainOk;
      KeptIsRest(id);
      assert ParentLinked(Whole(), s, id);
      var up := Whole()[id].parent.value;
      NotLost(id);
      LostTogether(up, id);
      KeptIsRest(up);
      hide Inv, Rest, Kept, Lost;
      if up == q {
        StillChild(id);
      }
      assert id in Children(P, up);
    }

    lemma NotLost(id: nat)
      requires Ready() && id in Kept()
      ensures id != r
    {
      assert Gone(0) == [r];
    }

    lemma StillChild(x: nat)
      requires Open() && x in Children(Whole(), q) && x != r
      ensures x in P[q].children
    {
      var i, cs, all := IndexOf(P[q].children, n), P[q].children, Whole()[q].children;
      var k := IndexOf(all, x);
      assert all[k] == if k <= i then cs[k] else if k == i + 1 then r else cs[k - 1];
    }

    lemma RootKept()
      requires Ready()
      ensures root in Kept() && Kept()[root].parent == None
    {
      hide KindsOk, KidsOk, SizesOk, BoundsOk, ChainOk;
      assert s.levels[|s.levels| - 1][0] == root;
      KeptIsRest(root);
    }

    lemma RestSizes()
      requires Ready()
      ensures SizesOk(c, Kept(), Rest(), {})
    {
      hide Inv, NodeFits, KeysFitAlone, Rest, Kept;
      forall id | id in Rest().level && id in Kept() && id !in {}
        ensures NodeFits(c, Kept()[id])
      {
        RestSize(id);
      }
      forall id | id in Rest().level && id in Kept()
        ensures KeysFitAlone(c, Kept()[id])
      {
        RestSize(id);
      }
    }

    lemma RestSize(id: nat)
      requires Ready() && id in Kept()
      ensures NodeFits(c, Kept()[id]) && KeysFitAlone(c, Kept()[id])
    {
      hide LevelsOk, KindsOk, LinksOk, KidsOk, BoundsOk, ChainOk, Below, Edge, LeafFits, InternalFits, FitsAlone;
      KeptIsRest(id);
      assert KeysFitAlone(c, Whole()[id]);
      if id == q {
        ParentKeys();
      } else {
        assert NodeFits(c, Whole()[id]);
      }
    }

    /** The separators of q are among those it would have. */
    lemma ParentKeys()
      requires Open() && KeysFitAlone(c, Whole()[q])
      ensures KeysFitAlone(c, P[q])
    {
      hide NodeFits, FitsAlone;
      var i, ks, all := IndexOf(P[q].children, n), P[q].keys, Whole()[q].keys;
      forall j | 0 <= j < |ks|
        ensures FitsAlone(c, ks[j])
      {
        assert all[if j < i then j else j + 1] == ks[j];
      }
    }

    /** The last nodes below n end at the separator. */
    lemma EdgeEnds(id: nat)
      requires Ready() && Edge(id)
      ensures s.hi[id] == Fin(sep)
    {
      hide LevelsOk, KindsOk, LinksOk, KidsOk, SizesOk, BoundsOk, ChainOk;
      var k := h - s.level[id];
      BlocksFilled(k);
      RightEdge(n, k);
      Between();
    }

    lemma RestIntervals(id: nat)
      requires Ready() && id in Rest().level
      ensures Rest().lo[id] == s.lo[id] && Le(s.hi[id], Rest().hi[id]) && IntervalOk(Rest(), id)
    {
      hide LevelsOk, KindsOk, LinksOk, KidsOk, SizesOk, ChainOk;
      assert IntervalOk(s, id) && IntervalOk(s, r);
      Between();
      if Edge(id) {
        EdgeEnds(id);
      }
    }

    lemma RootInterval()
      requires Ready()
      ensures Rest().lo.Keys == Rest().level.Keys && Rest().hi.Keys == Rest().level.Keys
      ensures root in Rest().level && Rest().lo[root] == NegInf && Rest().hi[root] == PosInf
    {
      hide LinksOk, KidsOk, SizesOk, ChainOk, KindsOk;
      assert s.levels[|s.levels| - 1][0] == root;
    }

    lemma RestBounds()
      requires Ready() && KindsOk(Kept(), Rest())
      ensures BoundsOk(Kept(), Rest(), root)
    {
      hide Inv, NodeFits, Rest, Kept, IntervalOk, LeafBounds, NodeBounds, Below, Edge, Lost;
      var t := Rest();
      RootInterval();
      forall id | id in t.level
        ensures IntervalOk(t, id)
      {
        RestIntervals(id);
      }
      forall id | id in t.level && t.level[id] == 0
        ensures LeafBounds(Kept(), t, id)
      {
        RestLeafBounds(id);
      }
      forall id | id in t.level && t.level[id] > 0
        ensures NodeBounds(Kept(), t, id)
      {
        if id == q {
          RestParentBounds();
        } else {
          RestNodeBounds(id);
        }
      }
    }

    lemma RestLeafBounds(id: nat)
      requires Ready() && id in Rest().level && Rest().level[id] == 0
      ensures LeafBounds(Kept(), Rest(), id)
    {
      hide LevelsOk, LinksOk, KidsOk, SizesOk, ChainOk;
      RestIntervals(id);
      KeptIsRest(id);
      assert LeafBounds(Whole(), s, id);
    }

    lemma WholeNode(id: nat)
      requires Ready() && id in s.level && s.level[id] > 0
      ensures id in Whole() && Whole()[id].InternalPage? && |Whole()[id].children| == |Whole()[id].keys| + 1
      ensures SortedKeys(Whole()[id].keys) && forall j :: 0 <= j < |Whole()[id].keys| ==>
                Le(s.lo[id], Fin(Whole()[id].keys[j])) && Le(Fin(Whole()[id].keys[j]), s.hi[id])
    {
      hide LevelsOk, LinksOk, KidsOk, SizesOk, ChainOk;
      assert NodeBounds(Whole(), s, id);
    }

    lemma KeptNode(id: nat)
      requires Ready() && id in Rest().level && id in s.level && s.level[id] > 0 && id != q
      ensures id in Kept() && Kept()[id] == Whole()[id]
    {
      hide Inv, NodeFits, Below, WithChild;
    }

    lemma RestNodeBounds(id: nat)
      requires Ready() && KindsOk(Kept(), Rest()) && id in Rest().level && Rest().level[id] > 0 && id != q
      ensures NodeBounds(Kept(), Rest(), id)
    {
      hide Inv, NodeFits, Rest, Kept, Below, Edge, Lost, IntervalOk, WithChild;
      KeptIsRest(id);
      WholeNode(id);
      RestIntervals(id);
      RestEnds(id);
      KeptNode(id);
      var ks, cs := Whole()[id].keys, Whole()[id].children;
      forall j | 0 <= j < |cs|
        ensures ChildBounds(Rest(), id, ks, cs[j], j)
      {
        RestChildBounds(id, j);
      }
    }

    lemma RestChildBounds(id: nat, j: nat)
      requires Ready() && id in Rest().level && id in s.level && s.level[id] > 0 && id != q
      requires id in Whole() && Whole()[id].InternalPage? && |Whole()[id].children| == |Whole()[id].keys| + 1
      requires j < |Whole()[id].children|
      ensures ChildBounds(Rest(), id, Whole()[id].keys, Whole()[id].children[j], j)
    {
      hide LevelsOk, LinksOk, KidsOk, SizesOk, ChainOk;
      var x := Whole()[id].children[j];
      assert NodeBounds(Whole(), s, id);
      assert ChildBounds(s, id, Whole()[id].keys, x, j);
      KeptIsRest(id);
      KeptChild(id, x);
      EdgeChild(id, j);
      hide BoundsOk, KindsOk;
    }

    /** The last node on a level below n is the last child of the last one above it. */
    lemma EdgeChild(id: nat, j: nat)
      requires Ready() && id in s.level && id != q && j < |Children(Whole(), id)|
      ensures Edge(Children(Whole(), id)[j]) <==> Edge(id) && j == |Children(Whole(), id)| - 1
    {
      hide Inv, NodeFits, Below, Children;
      var x := Children(Whole(), id)[j];
      ChildPlace(id, x);
      if s.level[id] <= h {
        EdgeBelow(h - s.level[id]);
        var up := Last(Left(h - s.level[id]));
        ChildrenThere(up);
        var last := Last(Children(Whole(), up));
        ChildPlace(up, last);
        if x == last && j < |Children(Whole(), id)| - 1 {
          ChildrenDistinct(c, Whole(), s, root, {q}, id, j, |Children(Whole(), id)| - 1);
        }
      } else if Edge(x) {
        assert Left(0) == a by { LeftIsA(); }
        NIsChild();
        ChildPlace(q, n);
      }
    }

    lemma LeftIsA()
      requires Open()
      ensures Left(0) == a && Gone(0) == [r]
    {
    }

    lemma EdgeBelow(k: nat)
      requires Ready() && k + 1 <= h
      ensures Left(k) != [] && Last(Left(k)) in s.level && s.level[Last(Left(k))] == h - k > 0
      ensures Children(Whole(), Last(Left(k))) != [] && Left(k + 1) != []
      ensures Last(Left(k + 1)) == Last(Children(Whole(), Last(Left(k))))
    {
      BlocksFilled(k);
      hide Inv, NodeFits, Flat;
      ChildrenThere(Last(Left(k)));
      FlatLast(ChildrenOf(Whole()), Left(k));
    }

    lemma NIsChild()
      requires Open()
      ensures n in Children(Whole(), q)
    {
      assert Whole()[q].children[IndexOf(P[q].children, n)] == n;
    }

    lemma RestParentBounds()
      requires Ready() && KindsOk(Kept(), Rest()) && q in Rest().level
      ensures NodeBounds(Kept(), Rest(), q)
    {
      hide Inv, NodeFits, Rest, Kept, ChildBounds, Below, Edge, Lost, WithChild;
      KeptParentPage();
      RestKeysInside();
      forall j | 0 <= j < |P[q].children|
        ensures ChildBounds(Rest(), q, P[q].keys, P[q].children[j], j)
      {
        RestSiblingBounds(j);
      }
    }

    lemma KeptParentPage()
      requires Open()
      ensures q in Kept() && Kept()[q] == P[q] && Rest().lo.Keys == Rest().level.Keys && Rest().hi.Keys == Rest().level.Keys
    {
      hide NodeFits, Below;
    }

    /** The separators of q, by their place among those it would have. */
    lemma RestKeysInside()
      requires Ready() && q in Rest().level
      ensures SortedKeys(P[q].keys) && forall j :: 0 <= j < |P[q].keys| ==>
                Le(Rest().lo[q], Fin(P[q].keys[j])) && Le(Fin(P[q].keys[j]), Rest().hi[q])
    {
      WholeNode(q);
      RestEnds(q);
      hide Inv, NodeFits, Rest, Edge;
      KeysWithout(P[q].keys, IndexOf(P[q].children, n), sep, s.lo[q], s.hi[q]);
    }

    /** Where child j of q would stand, and between which separators. */
    lemma SiblingPlace(j: nat)
      requires Open() && j < |P[q].children|
      ensures var i, ks, all := IndexOf(P[q].children, n), P[q].keys, Whole()[q].keys;
              var m := if j <= i then j else j + 1;
              && |all| == |ks| + 1 && |Whole()[q].children| == |P[q].children| + 1
              && Whole()[q].children[m] == P[q].children[j] && Whole()[q].children[i + 1] == r
              && (j > 0 ==> all[m - 1] == ks[j - 1])
              && (j != i && j < |ks| ==> all[m] == ks[j])
              && (i < |ks| ==> all[i + 1] == ks[i])
    {
      hide NodeFits;
    }

    lemma RestSiblingBounds(j: nat)
      requires Ready() && q in Rest().level && j < |P[q].children|
      ensures ChildBounds(Rest(), q, P[q].keys, P[q].children[j], j)
    {
      hide Inv, NodeFits, Rest, Kept, WithChild, Edge, Below, SortedKeys;
      var i, x := IndexOf(P[q].children, n), P[q].children[j];
      var m := if j <= i then j else j + 1;
      SiblingPlace(j);
      WholeSibling(m);
      WholeSibling(i + 1);
      KeptIsRest(q);
      KeptChild(q, x);
      ChildOfParent(x);
      EdgeOnTop(x);
      RestEnds(q);
      RestEnds(x);
      SiblingIsN(j);
    }

    lemma WholeSibling(m: nat)
      requires Ready() && m < |Whole()[q].children|
      ensures |Whole()[q].children| == |Whole()[q].keys| + 1
      ensures ChildBounds(s, q, Whole()[q].keys, Whole()[q].children[m], m)
    {
      hide LevelsOk, LinksOk, KidsOk, SizesOk, ChainOk;
      assert NodeBounds(Whole(), s, q);
      assert ChildBounds(s, q, Whole()[q].keys, Whole()[q].children[m], m);
    }

    lemma RestEnds(id: nat)
      requires Open() && id in Rest().level
      ensures id in s.level && Rest().lo[id] == s.lo[id] && Rest().hi[id] == if Edge(id) then s.hi[r] else s.hi[id]
      ensures !Edge(q) && Rest().lo.Keys == Rest().level.Keys && Rest().hi.Keys == Rest().level.Keys
    {
    }

    lemma SiblingIsN(j: nat)
      requires Ready() && j < |P[q].children|
      ensures P[q].children[j] == n <==> j == IndexOf(P[q].children, n)
    {
      var i := IndexOf(P[q].children, n);
      SiblingPlace(j);
      SiblingPlace(i);
      if P[q].children[j] == n && j != i {
        var m := if j <= i then j else j + 1;
        ChildrenDistinct(c, Whole(), s, root, {q}, q, if m < i then m else i, if m < i then i else m);
      }
    }

    lemma EdgeOnTop(x: nat)
      requires Ready() && x in Children(Whole(), q)
      ensures Edge(x) <==> x == n
    {
      hide LevelsOk, KindsOk, LinksOk, KidsOk, SizesOk, BoundsOk, ChainOk;
      ChildPlace(q, x);
    }

    lemma RestChain()
      requires Ready() && LevelsOk(Rest(), root) && KindsOk(Kept(), Rest())
      ensures ChainOk(Kept(), Rest())
    {
      hide Inv, NodeFits, Rest, Kept, LeafLinked, KindsOk, Below;
      RestLevel(0);
      forall i | 0 <= i < |Rest().levels[0]|
        ensures LeafLinked(Kept(), Rest(), i)
      {
        RestLinked(i);
      }
    }

    /** The leaves that stay, among all leaves. */
    lemma LeafPlace(i: nat) returns (m: nat)
      requires Ready() && i < |Left(h) + Right(h)|
      ensures |s.levels| > 0 && m < |s.levels[0]| && s.levels[0][m] == (Left(h) + Right(h))[i]
      ensures m == if i < |Left(h)| then i else i + |Gone(h)|
      ensures |s.levels[0]| == |Left(h)| + |Gone(h)| + |Right(h)|
      ensures i + 1 != |Left(h)| && i + 1 < |Left(h) + Right(h)| ==> s.levels[0][m + 1] == (Left(h) + Right(h))[i + 1]
    {
      Blocks(h);
      hide Inv, NodeFits, Below, Left, Gone, Right;
      m := WithoutMiddle(Left(h), Gone(h), Right(h), i);
    }

    lemma LeafStays(i: nat)
      requires Ready() && i < |Left(h) + Right(h)|
      ensures var x := (Left(h) + Right(h))[i];
              && x in s.level && s.level[x] == 0 && !Lost(x) && (Edge(x) <==> i + 1 == |Left(h)|)
              && x in Rest().level && x in Kept()
    {
      hide Inv, NodeFits, Below, Rest, Kept;
      Blocks(h);
      BlocksFilled(h);
      NoDupOuter(Left(h), Gone(h), Right(h));
      var x := (Left(h) + Right(h))[i];
      assert x in Left(h) || x in Right(h);
      OneBlock(h, x);
      IsKept(x);
      assert (Left(h) + Right(h))[|Left(h)| - 1] == Last(Left(h));
    }

    lemma IsKept(x: nat)
      requires Open() && x in s.level && !Lost(x)
      ensures x in Rest().level && x in Kept()
    {
    }

    /** Leaf i and its end, as it was and as it is now. */
    lemma RestLinked(i: nat)
      requires Ready() && i < |Left(h) + Right(h)| && |Rest().levels| >= 1 && Rest().levels[0] == Left(h) + Right(h)
      requires Rest().lo.Keys == Rest().level.Keys && Rest().hi.Keys == Rest().level.Keys
      ensures LeafLinked(Kept(), Rest(), i)
    {
      hide Inv, NodeFits, Rest, Kept, Below, Edge, Lost;
      var m := LeafPlace(i);
      var x := s.levels[0][m];
      WholeLinked(m);
      LeafStays(i);
      RestEnds(x);
      KeptLeaf(x);
      if i + 1 == |Left(h)| {
        GapCloses();
      }
      if i + 1 < |Left(h) + Right(h)| {
        LeafStays(i + 1);
        RestEnds((Left(h) + Right(h))[i + 1]);
      }
    }

    lemma WholeLinked(m: nat)
      requires Ready() && |s.levels| > 0 && m < |s.levels[0]|
      ensures LeafLinked(Whole(), s, m)
    {
      hide LevelsOk, KindsOk, LinksOk, KidsOk, SizesOk, BoundsOk;
    }

    lemma KeptLeaf(x: nat)
      requires Open() && x in Kept() && x in s.level && s.level[x] == 0 && x in Whole() && Whole()[x].LeafPage?
      ensures Kept()[x] == if Edge(x) then Whole()[x].(next := if Right(h) == [] then None else Some(Right(h)[0])) else Whole()[x]
    {
    }

    /** The leaf behind those of r begins where r ends. */
    lemma GapCloses()
      requires Ready()
      ensures Right(h) != [] ==> Right(h)[0] in s.level && s.lo[Right(h)[0]] == s.hi[r] && !Lost(Right(h)[0])
    {
      hide Inv, NodeFits, Below, LeafLinked, Flat;
      if Right(h) != [] {
        Blocks(h);
        BlocksFilled(h);
        RightEdge(r, h);
        var m := |Left(h)| + |Gone(h)| - 1;
        assert s.levels[0][m] == Last(Gone(h)) && s.levels[0][m + 1] == Right(h)[0];
        LinkMeans(m);
        OneBlock(h, Right(h)[0]);
      }
    }

    lemma LinkMeans(m: nat)
      requires Ready() && |s.levels| > 0 && m + 1 < |s.levels[0]|
      ensures s.levels[0][m + 1] in s.level && s.levels[0][m] in s.level && s.hi[s.levels[0][m]] == s.lo[s.levels[0][m + 1]]
    {
      hide LevelsOk, KindsOk, LinksOk, KidsOk, SizesOk, BoundsOk;
      assert LeafLinked(Whole(), s, m);
    }

    /** Without r and what is below it, the tree is valid. */
    lemma RestIsTree()
      requires Ready()
      ensures Inv(c, Kept(), Rest(), root, {})
    {
      RestLevels();
      RestKinds();
      RestLinks();
      RestKids();
      RestSizes();
      RestBounds();
      RestChain();
      hide LevelsOk, KindsOk, LinksOk, KidsOk, SizesOk, BoundsOk, ChainOk, Rest, Kept;
    }
  }

  /** Where element i of a and d together stands when g is between them. */
  lemma WithoutMiddle(a: seq<nat>, g: seq<nat>, d: seq<nat>, i: nat) returns (m: nat)
    requires i < |a + d|
    ensures m == (if i < |a| then i else i + |g|) && m < |a + g + d| == |a| + |g| + |d| && (a + g + d)[m] == (a + d)[i]
    ensures i + 1 != |a| && i + 1 < |a + d| ==> (a + g + d)[m + 1] == (a + d)[i + 1]
  {
    m := if i < |a| then i else i + |g|;
  }

  lemma KeysWithout(ks: seq<Key>, i: nat, k: Key, lo: Bound, hi: Bound)
    requires i <= |ks| && SortedKeys(InsertAt(ks, i, k))
    requires forall j :: 0 <= j <= |ks| ==> Le(lo, Fin(InsertAt(ks, i, k)[j])) && Le(Fin(InsertAt(ks, i, k)[j]), hi)
    ensures SortedKeys(ks) && forall j :: 0 <= j < |ks| ==> Le(lo, Fin(ks[j])) && Le(Fin(ks[j]), hi)
  {
    var all := InsertAt(ks, i, k);
    assert forall j :: 0 <= j < |ks| ==> ks[j] == all[if j < i then j else j + 1];
  }

  /** There is one way to write a list without duplicates around one of its elements. */
  lemma SplitAround(s: seq<nat>, a: seq<nat>, b: seq<nat>, d: seq<nat>, m: seq<nat>, j: nat, e: seq<nat>, x: nat)
    requires NoDup(s) && s == a + [x] + b && j <= |m| && s == d + (m[..j] + [x] + m[j..]) + e
    ensures a + b == d + m + e
  {
    var l, r := d + m[..j], m[j..] + e;
    assert s == l + [x] + r;
    assert s[|a|] == x && s[|l|] == x;
    assert |a| == |l|;
    assert a == s[..|a|] && b == s[|a| + 1..];
    assert l == s[..|a|] && r == s[|a| + 1..];
  }

  lemma NotBeforeOrAfter(L: seq<nat>, i: nat)
    requires NoDup(L) && i < |L|
    ensures forall y :: y in L[..i] || y in L[i + 1..] ==> y in L && y != L[i]
  {
  }

  lemma NoDupOuter(a: seq<nat>, b: seq<nat>, d: seq<nat>)
    requires NoDup(a + b + d)
    ensures NoDup(a + d)
  {
    var s := a + b + d;
    forall i, j | 0 <= i < j < |a + d|
      ensures (a + d)[i] != (a + d)[j]
    {
      assert (a + d)[i] == s[if i < |a| then i else i + |b|];
      assert (a + d)[j] == s[if j < |a| then j else j + |b|];
    }
  }

  lemma NotTwice(a: seq<nat>, b: seq<nat>, d: seq<nat>, x: nat)
    requires NoDup(a + b + d)
    ensures x in a ==> x !in b && x !in d
    ensures x in b ==> x !in d
  {
    var s := a + b + d;
    forall i, j | 0 <= i < |a| && 0 <= j < |b|
      ensures a[i] != b[j]
    {
      assert s[i] != s[|a| + j];
    }
    forall i, j | 0 <= i < |a| && 0 <= j < |d|
      ensures a[i] != d[j]
    {
      assert s[i] != s[|a| + |b| + j];
    }
    forall i, j | 0 <= i < |b| && 0 <= j < |d|
      ensures b[i] != d[j]
    {
      assert s[|a| + i] != s[|a| + |b| + j];
    }
  }

  /** A pending separator that is given up. */
  lemma Lose(c: Codec, P: Pages, s: Shape, root: nat, q: nat, n: nat, sep: Key, r: nat) returns (x: Loss)
    requires q in P && P[q].InternalPage? && n in P[q].children && |P[q].children| == |P[q].keys| + 1
    requires Inv(c, LinkChild(P, q, n, sep, r), s, root, {q}) && q in s.level && s.level[q] > 0
    requires NodeFits(c, P[q]) && P.Keys == s.level.Keys
    ensures x == Loss(c, P, s, root, q, n, sep, r, x.h, x.a, x.b) && x.Ready()
  {
    var V := LinkChild(P, q, n, sep, r);
    var h, i := s.level[q] - 1, IndexOf(P[q].children, n);
    hide Inv, NodeFits, Flat, NoDup;
    var k := LevelOfParent(c, V, s, root, q);
    var A, B := Flat(ChildrenOf(V), s.levels[h + 1][..k]), Flat(ChildrenOf(V), s.levels[h + 1][k + 1..]);
    NewChild(P[q], n, sep, r);
    ChildHere(c, V, s, root, q, i);
    ChildHere(c, V, s, root, q, i + 1);
    ChildrenDistinct(c, V, s, root, {q}, q, i, i + 1);
    Regroup(A, P[q].children, i + 1, r, B);
    x := Loss(c, P, s, root, q, n, sep, r, h, A + P[q].children[..i + 1], P[q].children[i + 1..] + B);
  }

  lemma NewChild(page: Page, n: nat, sep: Key, r: nat)
    requires page.InternalPage? && n in page.children && |page.children| == |page.keys| + 1
    ensures var i, cs := IndexOf(page.children, n), WithChild(page, n, sep, r).children;
            cs == page.children[..i + 1] + [r] + page.children[i + 1..] && |cs| == |page.children| + 1 && cs[i] == n && cs[i + 1] == r
  {
  }

  lemma Regroup(a: seq<nat>, m: seq<nat>, i: nat, r: nat, b: seq<nat>)
    requires 0 < i <= |m|
    ensures a + (m[..i] + [r] + m[i..]) + b == (a + m[..i]) + [r] + (m[i..] + b)
    ensures a + m[..i] != [] && Last(a + m[..i]) == m[i - 1]
  {
  }

  lemma LevelOfParent(c: Codec, V: Pages, s: Shape, root: nat, q: nat) returns (k: nat)
    requires Inv(c, V, s, root, {q}) && q in s.level && s.level[q] > 0
    ensures s.lo.Keys == s.level.Keys && s.hi.Keys == s.level.Keys
    ensures s.level[q] < |s.levels| && k < |s.levels[s.level[q]]| && s.levels[s.level[q]][k] == q
    ensures s.levels[s.level[q] - 1] == Flat(ChildrenOf(V), s.levels[s.level[q]][..k]) + Children(V, q)
                                        + Flat(ChildrenOf(V), s.levels[s.level[q]][k + 1..])
  {
    hide KindsOk, LinksOk, SizesOk, BoundsOk, ChainOk;
    assert OnLevel(s, q);
    k := IndexOf(s.levels[s.level[q]], q);
    assert Flat(ChildrenOf(V), s.levels[s.level[q]]) == s.levels[s.level[q] - 1];
    FlatAround(ChildrenOf(V), s.levels[s.level[q]], k);
  }

  lemma ChildHere(c: Codec, V: Pages, s: Shape, root: nat, q: nat, j: nat)
    requires Inv(c, V, s, root, {q}) && q in s.level && j < |Children(V, q)|
    ensures Children(V, q)[j] in s.level && s.level[Children(V, q)[j]] + 1 == s.level[q] && Children(V, q)[j] != q
  {
    hide LevelsOk, KindsOk, KidsOk, SizesOk, BoundsOk, ChainOk;
    assert ChildLinked(V, s, q, Children(V, q)[j]);
  }
}
