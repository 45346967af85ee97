/**
 Runs of the B+ tree with keys above half a page, from the empty tree: the third insert gets
 stuck, and the fourth hides a stored key from the search.
 */
module BPlusRuns {
  import opened Common
  import opened BPlusPages
  import opened BPlusInvariant
  import opened BPlusSplit
  import opened BPlusLemmas
  import opened BPlusSteps
  import opened BPlusChain
  import opened BPlusCascade
  import opened BPlusMoves
  import opened BPlusTreeIndex

  /** Pages of 116 bytes and keys of 45: every entry fits a leaf, no two do. */
  function Wide(): Codec {
    Codec(116, (k: Key) => 45)
  }

  lemma TotalOfTwo(a: nat, b: nat)
    ensures Total([]) == 0 && Total([a]) == a && Total([a, b]) == a + b
  {
    assert [a][1..] == [] && [b][1..] == [] && [a, b][1..] == [b];
  }

  lemma WideLeaf(es: seq<Entry>)
    requires forall i :: 0 <= i < |es| ==> RidInRange(es[i].rid)
    requires |es| <= 2
    ensures LeafFits(Wide(), es) <==> |es| <= 1
  {
    var ws := LeafWeights(Wide(), es);
    assert ws == if |es| == 0 then [] else if |es| == 1 then [57] else [57, 57];
    TotalOfTwo(57, 57);
  }

  lemma WideKeys(ks: seq<Key>)
    requires |ks| <= 2
    ensures InternalFits(Wide(), ks) <==> |ks| <= 1
    ensures forall p: nat :: !InternalCut(Wide(), ks, p)
  {
    var ws := KeyWeights(Wide(), ks);
    assert ws == if |ks| == 0 then [] else if |ks| == 1 then [53] else [53, 53];
    TotalOfTwo(53, 53);
  }

  /** Two leaf entries can be cut in one way only. */
  lemma WideCut(es: seq<Entry>)
    requires |es| == 2 && forall i :: 0 <= i < |es| ==> RidInRange(es[i].rid)
    ensures !LeafFits(Wide(), es) && IsLeafCut(Wide(), es, 1) && forall p: nat :: IsLeafCut(Wide(), es, p) ==> p == 1
  {
    WideLeaf(es);
    WideLeaf(es[..1]);
    WideLeaf(es[1..]);
  }

  /** What the leaf of an insert holds: the old entry, if any, and a larger one behind it. */
  lemma AppendedEntries(P: Pages, leaf: nat, e: Entry)
    requires |Entries(P, leaf)| <= 1 && forall x :: x in Entries(P, leaf) ==> x.key < e.key
    ensures NewEntries(P, leaf, e.key, e.rid) == Entries(P, leaf) + [e]
  {
    SortOfSorted(Entries(P, leaf) + [e]);
  }

  function FirstEntry(): Entry { Entry(1.0, RID(1, 0)) }

  function SecondEntry(): Entry { Entry(2.0, RID(1, 1)) }

  function ThirdEntry(): Entry { Entry(3.0, RID(1, 2)) }

  function FourthEntry(): Entry { Entry(4.0, RID(1, 3)) }

  function Top(): Page { InternalPage(None, [2.0], [1, 2]) }

  function NoLeaf(): Pages {
    map[1 := LeafPage(None, None, [])]
  }

  function OneLeaf(): Pages {
    map[1 := LeafPage(None, None, [FirstEntry()])]
  }

  function TwoLeaves(): Pages {
    map[1 := LeafPage(Some(3), Some(2), [FirstEntry()]),
        2 := LeafPage(Some(3), None, [SecondEntry()]),
        3 := Top()]
  }

  /** A third leaf, behind leaf 2, that the root does not lead to. */
  function ThreeLeaves(): Pages {
    map[1 := LeafPage(Some(3), Some(2), [FirstEntry()]),
        2 := LeafPage(Some(3), Some(4), [SecondEntry()]),
        3 := Top(),
        4 := LeafPage(Some(3), None, [ThirdEntry()])]
  }

  /** And a fourth, between the two. */
  function FourLeaves(): Pages {
    map[1 := LeafPage(Some(3), Some(2), [FirstEntry()]),
        2 := LeafPage(Some(3), Some(5), [SecondEntry()]),
        3 := Top(),
        4 := LeafPage(Some(3), None, [ThirdEntry()]),
        5 := LeafPage(Some(3), Some(4), [FourthEntry()])]
  }

  lemma FirstMeans(level: map<nat, nat>, top: nat, Q: Pages, root: nat, count: nat)
    ensures HomeLeaf(NoLeaf(), level, 1, 1.0) == 1
    ensures !LeafStuck(Wide(), NoLeaf(), level, 1, 1.0, RID(1, 0)) && !CascadeStuck(Wide(), NoLeaf(), level, top, 1, 1.0, RID(1, 0))
    ensures LeafWrites(Wide(), NoLeaf(), 1, 2, 1, NewEntries(NoLeaf(), 1, 1.0, RID(1, 0)), Q, root, count) ==>
              Q == OneLeaf() && root == 1 && count == 2
  {
    hide LeafFits, LeafCut, IsLeafCut, NewEntries, Stuck;
    AppendedEntries(NoLeaf(), 1, FirstEntry());
    assert [] + [FirstEntry()] == [FirstEntry()];
    WideLeaf([FirstEntry()]);
  }

  lemma SecondMeans(level: map<nat, nat>, top: nat, Q: Pages, root: nat, count: nat)
    ensures HomeLeaf(OneLeaf(), level, 1, 2.0) == 1
    ensures !LeafStuck(Wide(), OneLeaf(), level, 1, 2.0, RID(1, 1)) && !CascadeStuck(Wide(), OneLeaf(), level, top, 1, 2.0, RID(1, 1))
    ensures LeafWrites(Wide(), OneLeaf(), 1, 2, 1, NewEntries(OneLeaf(), 1, 2.0, RID(1, 1)), Q, root, count) ==>
              Q == TwoLeaves() && root == 3 && count == 4
  {
    hide LeafFits, LeafCut, IsLeafCut, NewEntries, Stuck;
    var es := [FirstEntry(), SecondEntry()];
    AppendedEntries(OneLeaf(), 1, SecondEntry());
    assert [FirstEntry()] + [SecondEntry()] == es;
    WideCut(es);
    CutIsPossible(es);
    assert es[..1] == [FirstEntry()] && es[1..] == [SecondEntry()];
  }

  lemma CutIsPossible(es: seq<Entry>)
    requires IsLeafCut(Wide(), es, 1)
    ensures LeafCut(Wide(), es, 1)
  {
  }

  /** The root over leaves 1 and 2 has no room for a second separator: leaf 2 is cut, and then the insert is stuck. */
  lemma StuckMeans(P: Pages, level: map<nat, nat>, top: nat, count: nat, next: Option<nat>, x: Entry, e: Entry, Q: Pages, root: nat, count': nat)
    requires 2 in P && P[2] == LeafPage(Some(3), next, [x]) && 3 in P && P[3] == Top()
    requires 2 in level && 3 in level && level[2] < level[3] && x.key < e.key && 2.0 <= e.key && RidInRange(x.rid) && RidInRange(e.rid)
    ensures HomeLeaf(P, level, 3, e.key) == 2
    ensures !LeafStuck(Wide(), P, level, 3, e.key, e.rid) && CascadeStuck(Wide(), P, level, top, 3, e.key, e.rid)
    ensures LeafWrites(Wide(), P, 3, count, 2, NewEntries(P, 2, e.key, e.rid), Q, root, count') ==>
              Q == P[2 := LeafPage(Some(3), Some(count), [x])][count := LeafPage(Some(3), next, [e])] && root == 3 && count' == count + 1
  {
    hide LeafFits, LeafCut, IsLeafCut, NewEntries, Stuck, InternalFits;
    var es := [x, e];
    assert BisectRight([2.0], e.key) == 1;
    AppendedEntries(P, 2, e);
    assert [x] + [e] == es;
    WideCut(es);
    CutIsPossible(es);
    assert es[..1] == [x] && es[1..] == [e];
    WideKeys(WithKey(P[3], 2, e.key));
    NoCutIsStuck(Wide(), P, level, top, 3, 2, e.key);
  }

  /** The root leads to leaves 1 and 2 and to no other page. */
  lemma OnlyTwoReached(tree: BPlusTree)
    requires tree.Valid() && tree.root == 3 && 3 in tree.pages && tree.pages[3] == Top()
    requires 2 in tree.pages && tree.pages[2].LeafPage?
    ensures 2 in tree.shape.level && 3 in tree.shape.level && tree.shape.level[2] < tree.shape.level[3]
    ensures forall id :: id in tree.shape.level ==> id == 1 || id == 2 || id == 3
  {
    tree.RootReached();
    tree.Reached(3);
    tree.StoredIs();
    RootAboveLeaf(tree);
    forall id | id in tree.shape.level
      ensures id == 1 || id == 2 || id == 3
    {
      UnderRoot(tree, id);
    }
  }

  lemma RootAboveLeaf(tree: BPlusTree)
    requires tree.Valid() && 3 in tree.shape.level && 3 in tree.linked && tree.linked[3] == Top()
    ensures 2 in tree.shape.level && tree.shape.level[2] + 1 == tree.shape.level[3]
    ensures 1 in tree.shape.level && tree.shape.level[1] + 1 == tree.shape.level[3]
  {
    hide LevelsOk, KindsOk, KidsOk, SizesOk, BoundsOk, ChainOk, View;
    assert ChildLinked(tree.linked, tree.shape, 3, Children(tree.linked, 3)[0]);
    assert ChildLinked(tree.linked, tree.shape, 3, Children(tree.linked, 3)[1]);
  }

  /** Levels go down by one from parent to child, so whatever is not the root is a child of the root. */
  lemma UnderRoot(tree: BPlusTree, id: nat)
    requires tree.Valid() && tree.root == 3 && 3 in tree.linked && tree.linked[3] == Top() && id in tree.shape.level
    requires 2 in tree.pages && tree.pages[2].LeafPage? && 2 in tree.shape.level && 1 in tree.shape.level && 3 in tree.shape.level
    requires tree.shape.level[2] + 1 == tree.shape.level[3] && tree.shape.level[1] + 1 == tree.shape.level[3]
    ensures id == 1 || id == 2 || id == 3
  {
    tree.Reached(2);
    hide KindsOk, SizesOk, BoundsOk, ChainOk, View, KidsOk;
    if id != 3 {
      assert ParentLinked(tree.linked, tree.shape, id);
      var q := tree.linked[id].parent.value;
      var j := IndexOf(Children(tree.linked, q), id);
      assert ChildLinked(tree.linked, tree.shape, q, Children(tree.linked, q)[j]);
      TopLevel(tree, q);
    }
  }

  lemma TopLevel(tree: BPlusTree, q: nat)
    requires tree.Valid() && q in tree.shape.level && tree.root in tree.shape.level && tree.shape.level[q] > 0
    requires tree.shape.level[tree.root] == 1
    ensures q == tree.root
  {
    hide KindsOk, LinksOk, KidsOk, SizesOk, BoundsOk, ChainOk, View;
    var s := tree.shape;
    assert OnLevel(s, q);
    assert s.levels[|s.levels| - 1][0] == tree.root;
  }

  method OneInsert() returns (tree: BPlusTree)
    ensures fresh(tree) && tree.codec == Wide() && tree.Valid() && tree.Ordered() && tree.AllReached()
    ensures tree.pages == OneLeaf() && tree.root == 1 && tree.firstLeaf == 1 && tree.pageCount == 2
    ensures multiset(tree.Contents()) == multiset{FirstEntry()}
  {
    WideRoom();
    hide *;
    tree := new BPlusTree(Wide());
    NoLeafIs();
    ghost var level, top := tree.shape.level, |tree.shape.levels|;
    tree.NothingHidden(1.0);
    var outcome := tree.Insert(1.0, RID(1, 0));
    FirstMeans(level, top, tree.pages, tree.root, tree.pageCount);
    Entries4();
  }

  lemma WideRoom()
    ensures Wide().pageSize >= HEADER_SIZE
  {
  }

  lemma NoLeafIs()
    ensures NoLeaf() == map[1 := LeafPage(None, None, [])]
  {
  }

  lemma Entries4()
    ensures FirstEntry() == Entry(1.0, RID(1, 0)) && SecondEntry() == Entry(2.0, RID(1, 1))
    ensures ThirdEntry() == Entry(3.0, RID(1, 2)) && FourthEntry() == Entry(4.0, RID(1, 3))
  {
  }

  /** Two inserts into an empty tree: the second cuts the root leaf. */
  method TwoInserts() returns (tree: BPlusTree)
    ensures fresh(tree) && tree.codec == Wide() && tree.Valid() && tree.Ordered() && tree.AllReached()
    ensures tree.pages == TwoLeaves() && tree.root == 3 && tree.firstLeaf == 1 && tree.pageCount == 4
    ensures multiset(tree.Contents()) == multiset{FirstEntry(), SecondEntry()}
  {
    hide *;
    tree := OneInsert();
    ghost var level, top := tree.shape.level, |tree.shape.levels|;
    tree.NothingHidden(2.0);
    var outcome := tree.Insert(2.0, RID(1, 1));
    SecondMeans(level, top, tree.pages, tree.root, tree.pageCount);
    Entries4();
  }

  /** Three keys in ascending order into an empty tree: the third insert gets stuck, each key fitting a leaf. */
  method ThirdInsertGetsStuck() returns (tree: BPlusTree, outcome: Outcome)
    ensures fresh(tree) && tree.codec == Wide() && forall k: Key :: FitsAlone(tree.codec, k)
    ensures outcome == InternalNotSplittable && tree.Valid() && tree.Ordered()
    ensures tree.pages == ThreeLeaves() && tree.root == 3 && tree.firstLeaf == 1 && tree.pageCount == 5
    ensures multiset(tree.Contents()) == multiset{FirstEntry(), SecondEntry(), ThirdEntry()}
  {
    EachFits();
    PagesAre();
    hide *;
    tree := TwoInserts();
    ghost var level, top := tree.shape.level, |tree.shape.levels|;
    OnlyTwoReached(tree);
    tree.NothingHidden(3.0);
    outcome := tree.Insert(3.0, RID(1, 2));
    StuckMeans(TwoLeaves(), level, top, 4, None, SecondEntry(), ThirdEntry(), tree.pages, tree.root, tree.pageCount);
  }

  lemma EachFits()
    ensures forall k: Key :: FitsAlone(Wide(), k)
  {
  }

  lemma PagesAre()
    ensures 2 in TwoLeaves() && TwoLeaves()[2] == LeafPage(Some(3), None, [SecondEntry()]) && 3 in TwoLeaves() && TwoLeaves()[3] == Top()
    ensures 2 in ThreeLeaves() && ThreeLeaves()[2] == LeafPage(Some(3), Some(4), [SecondEntry()]) && 3 in ThreeLeaves() && ThreeLeaves()[3] == Top()
    ensures FirstEntry() == Entry(1.0, RID(1, 0)) && SecondEntry() == Entry(2.0, RID(1, 1))
    ensures ThirdEntry() == Entry(3.0, RID(1, 2)) && FourthEntry() == Entry(4.0, RID(1, 3))
    ensures RidInRange(SecondEntry().rid) && RidInRange(ThirdEntry().rid) && RidInRange(FourthEntry().rid)
    ensures ThreeLeaves() == TwoLeaves()[2 := LeafPage(Some(3), Some(4), [SecondEntry()])][4 := LeafPage(Some(3), None, [ThirdEntry()])]
    ensures FourLeaves() == ThreeLeaves()[2 := LeafPage(Some(3), Some(5), [SecondEntry()])][5 := LeafPage(Some(3), Some(4), [FourthEntry()])]
    ensures 2 in FourLeaves() && FourLeaves()[2].LeafPage? && 3 in FourLeaves() && FourLeaves()[3] == Top()
  {
  }

  /** A fourth key: it goes in front of the third, which the search then does not find although it is stored. */
  method FourthInsertHidesAKey() returns (tree: BPlusTree, outcome: Outcome, found: seq<RID>)
    ensures outcome == InternalNotSplittable && tree.Valid() && !tree.Ordered()
    ensures ThirdEntry() in multiset(tree.Contents()) && found == []
  {
    PagesAre();
    hide *;
    tree, outcome := ThirdInsertGetsStuck();
    ghost var level, top := tree.shape.level, |tree.shape.levels|;
    OnlyTwoReached(tree);
    outcome := tree.Insert(4.0, RID(1, 3));
    StuckMeans(ThreeLeaves(), level, top, 5, Some(4), SecondEntry(), FourthEntry(), tree.pages, tree.root, tree.pageCount);
    OnlyTwoReached(tree);
    FourOnChain(tree);
    found := tree.Search(3.0);
    NotFound(tree, found);
  }

  /** The chain of those pages, and what it holds. */
  lemma FourOnChain(tree: BPlusTree)
    requires tree.Valid() && tree.pages == FourLeaves() && tree.firstLeaf == 1
    ensures tree.Leaves() == [1, 2, 5, 4] && tree.Contents() == [FirstEntry(), SecondEntry(), FourthEntry(), ThirdEntry()]
    ensures ThirdEntry() in multiset(tree.Contents()) && !tree.Ordered()
  {
    hide *;
    ChainBegins(tree);
    tree.StoredIs();
    FourEntries();
    LinkedIs(tree.pages, tree.Leaves());
    assert tree.Contents()[2] == FourthEntry() && tree.Contents()[3] == ThirdEntry();
    if tree.Ordered() {
      tree.OrderedAscends();
      NotSorted(tree.Contents());
    }
  }

  lemma FourLinks()
    ensures var P := FourLeaves();
            && 1 in P && 2 in P && 4 in P && 5 in P && P[1].LeafPage? && P[2].LeafPage? && P[4].LeafPage? && P[5].LeafPage?
            && P[1].next == Some(2) && P[2].next == Some(5) && P[5].next == Some(4) && P[4].next == None
  {
  }

  lemma LinkedIs(P: Pages, L: seq<nat>)
    requires P == FourLeaves() && Linked(P, L) && |L| > 0 && L[0] == 1
    ensures L == [1, 2, 5, 4]
  {
    FourLinks();
    hide FourLeaves, NoDup;
    assert NextOk(P, L, 0) && |L| > 1 && L[1] == 2;
    assert NextOk(P, L, 1) && |L| > 2 && L[2] == 5;
    assert NextOk(P, L, 2) && |L| > 3 && L[3] == 4;
    assert NextOk(P, L, 3) && |L| == 4;
  }

  lemma NotSorted(es: seq<Entry>)
    requires |es| == 4 && es[2].key > es[3].key
    ensures !KeySorted(es)
  {
  }

  lemma FourEntries()
    ensures AllEntries(FourLeaves(), [1, 2, 5, 4]) == [FirstEntry(), SecondEntry(), FourthEntry(), ThirdEntry()]
    ensures FourthEntry().key > ThirdEntry().key
  {
    var P := FourLeaves();
    assert [1, 2, 5, 4] == [1] + ([2] + ([5] + [4]));
    EntriesAppend(P, [1], [2] + ([5] + [4]));
    EntriesAppend(P, [2], [5] + [4]);
    EntriesAppend(P, [5], [4]);
    EntriesOne(P, 1);
    EntriesOne(P, 2);
    EntriesOne(P, 5);
    EntriesOne(P, 4);
  }

  lemma ChainBegins(tree: BPlusTree)
    requires tree.Valid()
    ensures |tree.Leaves()| > 0 && tree.Leaves()[0] == tree.firstLeaf && Linked(tree.pages, tree.Leaves())
  {
    hide Inv;
  }

  /** Wherever the separators lead the search, the larger key comes first. */
  lemma NotFound(tree: BPlusTree, found: seq<RID>)
    requires tree.Leaves() == [1, 2, 5, 4] && tree.Contents() == [FirstEntry(), SecondEntry(), FourthEntry(), ThirdEntry()]
    requires tree.pages == FourLeaves() && forall id :: id in tree.shape.level ==> id == 1 || id == 2 || id == 3
    requires exists m: nat :: tree.StartsAt(m, 3.0) && tree.Answers(m, 3.0, 3.0, found)
    ensures found == []
  {
    var m: nat :| tree.StartsAt(m, 3.0) && tree.Answers(m, 3.0, 3.0, found);
    hide Inv, AllEntries, Flat, OrderedChain, InRange, StartLeaf, Chain, FourLeaves;
    assert m <= 1;
    FirstAlone();
    assert tree.Leaves()[..m] == if m == 0 then [] else [1];
    assert |tree.Before(m)| == m;
    var b: nat :| ReadUpTo(tree.Contents(), m, b, 3.0) && found == InRange(tree.Contents()[m..b], 3.0, 3.0);
    ReadsNothing(tree.Contents(), m, b);
  }

  lemma FirstAlone()
    ensures AllEntries(FourLeaves(), []) == [] && |AllEntries(FourLeaves(), [1])| == 1
  {
    NoEntries(FourLeaves());
    EntriesOne(FourLeaves(), 1);
  }

  lemma ReadsNothing(es: seq<Entry>, m: nat, b: nat)
    requires m <= 1 && ReadUpTo(es, m, b, 3.0) && es == [FirstEntry(), SecondEntry(), FourthEntry(), ThirdEntry()]
    ensures InRange(es[m..b], 3.0, 3.0) == []
  {
    assert es[0].key == 1.0 && es[1].key == 2.0 && es[2].key == 4.0;
    assert b == 2;
    NothingInRange(es[m..b], 3.0, 3.0);
  }
}
