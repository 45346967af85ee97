/** The R-tree index (engine/indexes/rtree/rtree.py). */
module RTreeIndex {
  import opened Common
  import opened RTreeNodes
  import opened Sequences
  import opened RTreeSplit

  function MinEntries(order: nat): nat {
    if order / 2 > 1 then order / 2 else 1
  }

  // ----- what remove leaves -----

  /** The entry after `front` is dropped: every match, or with a RID the first one on the leaf. */
  predicate Dropped(front: seq<Item>, it: Item, p: Point, rid: Option<RID>) {
    it.point == p && (rid.None? || (it.rid == rid.value && it !in front))
  }

  function Strip(es: seq<Item>, p: Point, rid: Option<RID>): seq<Item> {
    if es == [] then []
    else
      var front, last := es[..|es| - 1], es[|es| - 1];
      Strip(front, p, rid) + if Dropped(front, last, p, rid) then [] else [last]
  }

  /** remove works leaf by leaf. */
  function Stripped(n: Node, p: Point, rid: Option<RID>): seq<Item>
    decreases n
  {
    match n
    case Leaf(es, _) => Strip(es, p, rid)
    case Internal(cs, _) => StrippedAll(cs, p, rid)
  }

  function StrippedAll(cs: seq<Node>, p: Point, rid: Option<RID>): seq<Item>
    decreases cs
  {
    if cs == [] then [] else StrippedAll(cs[..|cs| - 1], p, rid) + Stripped(cs[|cs| - 1], p, rid)
  }

  /** How many leaves hold the item. */
  function LeavesWith(n: Node, it: Item): nat
    decreases n
  {
    match n
    case Leaf(es, _) => if it in es then 1 else 0
    case Internal(cs, _) => LeavesWithAll(cs, it)
  }

  function LeavesWithAll(cs: seq<Node>, it: Item): nat
    decreases cs
  {
    if cs == [] then 0 else LeavesWithAll(cs[..|cs| - 1], it) + LeavesWith(cs[|cs| - 1], it)
  }

  /** The items at other points, in order. */
  function AwayFrom(es: seq<Item>, p: Point): seq<Item> {
    if es == [] then []
    else AwayFrom(es[..|es| - 1], p) + if es[|es| - 1].point == p then [] else [es[|es| - 1]]
  }

  lemma {:induction false} StripNone(es: seq<Item>, p: Point)
    ensures Strip(es, p, None) == AwayFrom(es, p)
  {
    if es != [] {
      StripNone(es[..|es| - 1], p);
    }
  }

  lemma {:induction false} StripFirst(es: seq<Item>, p: Point, rid: RID)
    ensures multiset(Strip(es, p, Some(rid))) == multiset(es) - multiset{Item(p, rid)}
  {
    if es != [] {
      var front, last := es[..|es| - 1], es[|es| - 1];
      StripFirst(front, p, rid);
      assert es == front + [last];
      assert last == Item(p, rid) <==> last.point == p && last.rid == rid;
      assert last in front <==> last in multiset(front);
    }
  }

  /** What is left are the items at these places, which are all that are not at p, in order. */
  ghost predicate KeepsElsewhere(items: seq<Item>, at: seq<nat>, p: Point, rest: seq<Item>) {
    && Places(at, |items|) && |rest| == |at| && (forall j :: 0 <= j < |at| ==> rest[j] == items[at[j]])
    && (forall i {:trigger items[i]} :: 0 <= i < |items| ==> (i in at <==> items[i].point.x != p.x || items[i].point.y != p.y))
  }

  lemma {:induction false} AwayFromKeeps(items: seq<Item>, p: Point) returns (at: seq<nat>)
    ensures KeepsElsewhere(items, at, p, AwayFrom(items, p))
  {
    if items == [] {
      at := [];
    } else {
      var n := |items| - 1;
      var front := AwayFromKeeps(items[..n], p);
      at := front + if items[n].point == p then [] else [n];
      OneMorePlace(front, n);
      forall i: nat | i < |items|
        ensures i in at <==> items[i].point.x != p.x || items[i].point.y != p.y
      {
        assert i < n ==> items[..n][i] == items[i];
        assert items[i].point == p <==> items[i].point.x == p.x && items[i].point.y == p.y;
      }
    }
  }

  lemma {:induction false} AwayFromConcat(a: seq<Item>, b: seq<Item>, p: Point)
    ensures AwayFrom(a + b, p) == AwayFrom(a, p) + AwayFrom(b, p)
  {
    if b == [] {
      assert a + b == a;
    } else {
      AwayFromConcat(a, b[..|b| - 1], p);
      assert (a + b)[..|a + b| - 1] == a + b[..|b| - 1];
    }
  }

  /** Without a RID, remove keeps exactly the items at other points. */
  lemma {:induction false} StrippedNone(n: Node, p: Point)
    ensures Stripped(n, p, None) == AwayFrom(Items(n), p)
    decreases n
  {
    match n
    case Leaf(es, _) => StripNone(es, p);
    case Internal(cs, _) => StrippedAllNone(cs, p);
  }

  lemma {:induction false} StrippedAllNone(cs: seq<Node>, p: Point)
    ensures StrippedAll(cs, p, None) == AwayFrom(ItemsOf(cs), p)
    decreases cs
  {
    if cs != [] {
      StrippedAllNone(cs[..|cs| - 1], p);
      StrippedNone(cs[|cs| - 1], p);
      AwayFromConcat(ItemsOf(cs[..|cs| - 1]), Items(cs[|cs| - 1]), p);
    }
  }

  /** With a RID, it drops the pair once for every leaf that holds it. */
  lemma {:induction false} StrippedPair(n: Node, p: Point, rid: RID, it: Item)
    ensures multiset(Stripped(n, p, Some(rid)))[it] + (if it == Item(p, rid) then LeavesWith(n, it) else 0) == multiset(Items(n))[it]
    decreases n
  {
    match n
    case Leaf(es, _) => StripFirst(es, p, rid);
    case Internal(cs, _) => StrippedAllPair(cs, p, rid, it);
  }

  lemma {:induction false} StrippedAllPair(cs: seq<Node>, p: Point, rid: RID, it: Item)
    ensures multiset(StrippedAll(cs, p, Some(rid)))[it] + (if it == Item(p, rid) then LeavesWithAll(cs, it) else 0) == multiset(ItemsOf(cs))[it]
    decreases cs
  {
    if cs != [] {
      StrippedAllPair(cs[..|cs| - 1], p, rid, it);
      StrippedPair(cs[|cs| - 1], p, rid, it);
    }
  }

  lemma {:induction false} StrippedLength(n: Node, p: Point, rid: RID)
    ensures |Stripped(n, p, Some(rid))| + LeavesWith(n, Item(p, rid)) == |Items(n)|
    decreases n
  {
    match n
    case Leaf(es, _) =>
      StripFirst(es, p, rid);
      assert |multiset(Strip(es, p, Some(rid)))| == |multiset(es) - multiset{Item(p, rid)}|;
      if Item(p, rid) in es {
        assert multiset{Item(p, rid)} <= multiset(es);
      } else {
        assert multiset(es) - multiset{Item(p, rid)} == multiset(es);
      }
    case Internal(cs, _) => StrippedAllLength(cs, p, rid);
  }

  lemma {:induction false} StrippedAllLength(cs: seq<Node>, p: Point, rid: RID)
    ensures |StrippedAll(cs, p, Some(rid))| + LeavesWithAll(cs, Item(p, rid)) == |ItemsOf(cs)|
    decreases cs
  {
    if cs != [] {
      StrippedAllLength(cs[..|cs| - 1], p, rid);
      StrippedLength(cs[|cs| - 1], p, rid);
    }
  }

  /** The pair is stored if and only if some leaf holds it. */
  lemma {:induction false} LeavesWithPositive(n: Node, it: Item)
    ensures LeavesWith(n, it) > 0 <==> it in Items(n)
    decreases n
  {
    if n.Internal? {
      LeavesWithAllPositive(n.children, it);
    }
  }

  lemma {:induction false} LeavesWithAllPositive(cs: seq<Node>, it: Item)
    ensures LeavesWithAll(cs, it) > 0 <==> it in ItemsOf(cs)
    decreases cs
  {
    if cs != [] {
      LeavesWithAllPositive(cs[..|cs| - 1], it);
      LeavesWithPositive(cs[|cs| - 1], it);
    }
  }

  lemma {:induction false} StripNothing(es: seq<Item>, p: Point, rid: Option<RID>)
    requires forall it :: it in es ==> it.point != p
    ensures Strip(es, p, rid) == es
  {
    if es != [] {
      StripNothing(es[..|es| - 1], p, rid);
      assert es == es[..|es| - 1] + [es[|es| - 1]];
    }
  }

  /** A subtree without the point is left as it is: skipping it by its box changes nothing. */
  lemma {:induction false} StrippedNothing(n: Node, p: Point, rid: Option<RID>)
    requires forall it :: it in Items(n) ==> it.point != p
    ensures Stripped(n, p, rid) == Items(n)
    decreases n
  {
    match n
    case Leaf(es, _) => StripNothing(es, p, rid);
    case Internal(cs, _) => StrippedAllNothing(cs, p, rid);
  }

  lemma {:induction false} StrippedAllNothing(cs: seq<Node>, p: Point, rid: Option<RID>)
    requires forall it :: it in ItemsOf(cs) ==> it.point != p
    ensures StrippedAll(cs, p, rid) == ItemsOf(cs)
    decreases cs
  {
    if cs != [] {
      StrippedAllNothing(cs[..|cs| - 1], p, rid);
      StrippedNothing(cs[|cs| - 1], p, rid);
    }
  }

  // ----- inserting -----

  /** Is child a a better home for the box than child b? */
  predicate Better(a: MBR, b: MBR, target: MBR) {
    || Enlargement(a, target) < Enlargement(b, target)
    || (Enlargement(a, target) == Enlargement(b, target) && Area(a) < Area(b))
  }

  /** Box a grows less than b, or as much and covers less. */
  ghost predicate GrowsLess(a: MBR, b: MBR, target: MBR) {
    Growth(a, target) < Growth(b, target) || (Growth(a, target) == Growth(b, target) && Covered(a) < Covered(b))
  }

  /** The first of the children that grow least by taking the point. */
  ghost predicate BestChild(cs: seq<Node>, best: nat, p: Point) {
    && best < |cs|
    && (forall j :: 0 <= j < |cs| ==> !GrowsLess(BoxOf(cs[j]), BoxOf(cs[best]), MBR(p.x, p.y, p.x, p.y)))
    && (forall j :: 0 <= j < best ==> GrowsLess(BoxOf(cs[best]), BoxOf(cs[j]), MBR(p.x, p.y, p.x, p.y)))
  }

  /** An insert below a node that did not split: the best child changed and may have handed one up, all others are as they were. */
  ghost predicate OnlyBestChanged(before: seq<Node>, after: seq<Node>, p: Point) {
    exists i: nat ::
      && BestChild(before, i, p) && |before| <= |after| <= |before| + 1
      && forall j :: 0 <= j < |before| && j != i ==> after[j] == before[j]
  }

  /** The first child that needs the least enlargement, the smaller one if several do. */
  method ChooseChild(cs: seq<Node>, p: Point) returns (best: nat)
    requires |cs| > 0
    ensures best < |cs|
    ensures forall j :: 0 <= j < |cs| ==> !Better(BoxOf(cs[j]), BoxOf(cs[best]), FromPoint(p))
    ensures forall j :: 0 <= j < best ==> Better(BoxOf(cs[best]), BoxOf(cs[j]), FromPoint(p))
    ensures BestChild(cs, best, p)
  {
    hide Enlargement, Area, Growth, Covered;
    forall a: MBR, b: MBR
      ensures Better(a, b, FromPoint(p)) <==> GrowsLess(a, b, MBR(p.x, p.y, p.x, p.y))
    {
      GrowthIs(a, FromPoint(p));
      GrowthIs(b, FromPoint(p));
    }
    best := 0;
    for i := 1 to |cs|
      invariant best < i
      invariant forall j :: 0 <= j < i ==> !Better(BoxOf(cs[j]), BoxOf(cs[best]), FromPoint(p))
      invariant forall j :: 0 <= j < best ==> Better(BoxOf(cs[best]), BoxOf(cs[j]), FromPoint(p))
    {
      if Better(BoxOf(cs[i]), BoxOf(cs[best]), FromPoint(p)) {
        best := i;
      }
    }
  }

  /** Two well-formed halves of an overfull node, neither with too few entries. */
  ghost predicate Halves(left: Node, right: Node, order: nat, h: nat) {
    && Ok(left, order, h) && Ok(right, order, h)
    && Size(left) >= 1 && Size(right) >= 1 && Size(left) >= order / 2 && Size(right) >= order / 2
  }

  method SplitLeaf(es: seq<Item>, order: nat) returns (left: Node, right: Node)
    requires order >= 2 && |es| == order + 1
    ensures Halves(left, right, order, 0)
    ensures QuadraticHalves(es, PointBox, if order >= 4 then order / 2 else 1, Items(left), Items(right))
    ensures multiset(Items(left)) + multiset(Items(right)) == multiset(es)
  {
    hide Tight, Cover, QuadraticHalves;
    var l, lb, r, rb := QuadraticSplit(es, PointBox, MinEntries(order));
    left, right := Leaf(l, Some(lb)), Leaf(r, Some(rb));
    LeafCover(l);
    LeafCover(r);
  }

  method SplitInternal(cs: seq<Node>, order: nat, ghost h: nat) returns (left: Node, right: Node)
    requires order >= 2 && |cs| == order + 1 && AllOk(cs, order, h)
    ensures Halves(left, right, order, h + 1)
    ensures left.Internal? && right.Internal?
    ensures QuadraticHalves(cs, BoxOf, if order >= 4 then order / 2 else 1, left.children, right.children)
    ensures multiset(Items(left)) + multiset(Items(right)) == multiset(ItemsOf(cs))
  {
    hide Tight, Cover, ItemsOf, QuadraticHalves;
    var l, lb, r, rb := QuadraticSplit(cs, BoxOf, MinEntries(order));
    left, right := Internal(l, Some(lb)), Internal(r, Some(rb));
    assert multiset(l + r) == multiset(cs);
    ItemsOfPermuted(l + r, cs);
    ItemsOfConcat(l, r);
    forall i | 0 <= i < |l|
      ensures Ok(l[i], order, h)
    {
      assert l[i] in multiset(cs);
    }
    forall i | 0 <= i < |r|
      ensures Ok(r[i], order, h)
    {
      assert r[i] in multiset(cs);
    }
    InternalCover(l, order, h);
    InternalCover(r, order, h);
  }

  function PromotedItems(promoted: Option<Node>): multiset<Item> {
    if promoted.Some? then multiset(Items(promoted.value)) else multiset{}
  }

  method InsertInLeaf(es: seq<Item>, order: nat, it: Item) returns (left: Node, promoted: Option<Node>)
    requires order >= 2 && 1 <= |es| <= order
    ensures Ok(left, order, 0) && (promoted.Some? ==> Halves(left, promoted.value, order, 0))
    ensures multiset(Items(left)) + PromotedItems(promoted) == multiset(es) + multiset{it}
    ensures promoted.None? <==> |es| < order
    ensures promoted.None? ==> Items(left) == es + [it]
    ensures promoted.Some? ==> QuadraticHalves(es + [it], PointBox, if order >= 4 then order / 2 else 1, Items(left), Items(promoted.value))
  {
    hide Ok, Cover, ComputeMbr, QuadraticHalves;
    promoted := None;
    var grown := es + [it];
    if |grown| > order {
      var right;
      left, right := SplitLeaf(grown, order);
      promoted := Some(right);
    } else {
      left := NewLeaf(grown);
      NewLeafOk(grown, order);
    }
  }

  /** After a child was changed: take up what it handed up, split if that is too much. */
  method TakeUp(kids: seq<Node>, extra: Option<Node>, order: nat, ghost h: nat) returns (left: Node, promoted: Option<Node>)
    requires order >= 2 && 1 <= |kids| <= order && AllOk(kids, order, h)
    requires extra.Some? ==> Ok(extra.value, order, h)
    ensures Ok(left, order, h + 1) && (promoted.Some? ==> Halves(left, promoted.value, order, h + 1))
    ensures multiset(Items(left)) + PromotedItems(promoted) == multiset(ItemsOf(kids)) + PromotedItems(extra)
    ensures promoted.None? <==> extra.None? || |kids| < order
    ensures promoted.Some? ==> left.Internal? && promoted.value.Internal?
    ensures promoted.Some? ==>
              QuadraticHalves(kids + [extra.value], BoxOf, if order >= 4 then order / 2 else 1, left.children, promoted.value.children)
    ensures promoted.None? ==> left.Internal? && left.children == kids + if extra.Some? then [extra.value] else []
    ensures promoted.None? ==> Items(left) == ItemsOf(kids) + if extra.Some? then Items(extra.value) else []
  {
    hide Ok, Cover, ItemsOf, ComputeMbr, QuadraticHalves;
    promoted := None;
    var all := kids;
    if extra.Some? {
      ItemsOfAppend(kids, extra.value);
      all := kids + [extra.value];
      if |all| > order {
        var right;
        left, right := SplitInternal(all, order, h);
        promoted := Some(right);
        return;
      }
    }
    left := NewInternal(all);
    NewInternalOk(all, order, h);
  }

  /** Insert below a node; a node that overflows keeps one half and hands the other up. */
  method InsertInto(n: Node, order: nat, ghost h: nat, it: Item) returns (left: Node, promoted: Option<Node>)
    requires order >= 2 && Ok(n, order, h)
    ensures Ok(left, order, h) && (promoted.Some? ==> Halves(left, promoted.value, order, h))
    ensures multiset(Items(left)) + PromotedItems(promoted) == multiset(Items(n)) + multiset{it}
    ensures n.Leaf? && promoted.None? ==> Items(left) == Items(n) + [it]
    ensures n.Internal? && promoted.None? ==> left.Internal? && OnlyBestChanged(n.children, left.children, it.point)
    decreases n
  {
    hide Tight, ItemsOf;
    match n {
      case Leaf(es, _) =>
        left, promoted := InsertInLeaf(es, order, it);
      case Internal(cs, _) =>
        var i := ChooseChild(cs, it.point);
        assert Ok(cs[i], order, h - 1);
        var child, extra := InsertInto(cs[i], order, h - 1, it);
        assert AllOk(cs[i := child], order, h - 1);
        ItemsOfUpdate(cs, i, child);
        assert Items(n) == ItemsOf(cs);
        hide Items, Ok, BestChild;
        left, promoted := TakeUp(cs[i := child], extra, order, h - 1);
        Exchange(multiset(ItemsOf(cs[i := child])), multiset(Items(cs[i])), multiset(ItemsOf(cs)), multiset(Items(child)),
                 PromotedItems(extra), it);
    }
  }

  lemma Exchange(kids: multiset<Item>, before: multiset<Item>, whole: multiset<Item>, after: multiset<Item>,
                 extra: multiset<Item>, it: Item)
    requires kids + before == whole + after && after + extra == before + multiset{it}
    ensures kids + extra == whole + multiset{it}
  {
    forall x
      ensures (kids + extra)[x] == (whole + multiset{it})[x]
    {
      assert (kids + before)[x] == (whole + after)[x] && (after + extra)[x] == (before + multiset{it})[x];
    }
  }

  // ----- removing -----

  /** The leaf without the dropped entries; it may be empty afterwards. */
  method RemoveInLeaf(es: seq<Item>, p: Point, rid: Option<RID>) returns (keep: seq<Item>, removed: nat)
    ensures keep == Strip(es, p, rid) && removed + |keep| == |es|
  {
    keep, removed := [], 0;
    var removedOne := false;
    for i := 0 to |es|
      invariant keep == Strip(es[..i], p, rid) && removed + |keep| == i
      invariant rid.Some? ==> (removedOne <==> Item(p, rid.value) in es[..i])
    {
      assert es[..i + 1][..i] == es[..i];
      if es[i].point == p && (rid.None? || (!removedOne && es[i].rid == rid.value)) {
        removed := removed + 1;
        removedOne := true;
      } else {
        keep := keep + [es[i]];
      }
    }
    assert es[..|es|] == es;
  }

  /** The first i children after the removal: those that still have entries, in order. */
  ghost predicate KeptSoFar(cs: seq<Node>, i: nat, keep: seq<Node>, removed: nat, order: nat, h: nat, p: Point, rid: Option<RID>) {
    && i <= |cs| && |keep| <= i && AllOk(keep, order, h)
    && ItemsOf(keep) == StrippedAll(cs[..i], p, rid)
    && removed + |ItemsOf(keep)| == |ItemsOf(cs[..i])|
  }

  lemma KeepStep(cs: seq<Node>, i: nat, keep: seq<Node>, removed: nat, order: nat, h: nat, p: Point, rid: Option<RID>,
                 child: Node, n: nat)
    requires i < |cs| && KeptSoFar(cs, i, keep, removed, order, h, p, rid)
    requires Remains(child, cs[i], n, order, h, p, rid)
    ensures KeptSoFar(cs, i + 1, if Size(child) > 0 then keep + [child] else keep, removed + n, order, h, p, rid)
  {
    hide Items, Stripped, Ok, ItemsOf, StrippedAll;
    StrippedAllAppend(cs, i, p, rid);
    if Size(child) > 0 {
      ItemsOfAppend(keep, child);
      AllOkAppend(keep, child, order, h);
    } else {
      assert StrippedAll(cs[..i], p, rid) + Items(child) == StrippedAll(cs[..i], p, rid);
    }
  }

  lemma AllOkAppend(cs: seq<Node>, c: Node, order: nat, h: nat)
    requires AllOk(cs, order, h) && Ok(c, order, h)
    ensures AllOk(cs + [c], order, h)
  {
    hide Ok;
  }

  lemma StrippedAllAppend(cs: seq<Node>, i: nat, p: Point, rid: Option<RID>)
    requires i < |cs|
    ensures StrippedAll(cs[..i + 1], p, rid) == StrippedAll(cs[..i], p, rid) + Stripped(cs[i], p, rid)
    ensures |ItemsOf(cs[..i + 1])| == |ItemsOf(cs[..i])| + |Items(cs[i])|
  {
    assert cs[..i + 1][..i] == cs[..i];
  }

  /** What remove may leave of a node: nothing, or a well-formed node with the items it should keep. */
  ghost predicate Remains(left: Node, n: Node, removed: nat, order: nat, h: nat, p: Point, rid: Option<RID>) {
    && Items(left) == Stripped(n, p, rid) && removed + |Items(left)| == |Items(n)|
    && if Size(left) > 0 then Ok(left, order, h) else Items(left) == []
  }

  /** Remove below a node; emptied children are pruned, so the result may have no entries. */
  method RemoveFrom(n: Node, order: nat, ghost h: nat, p: Point, rid: Option<RID>) returns (left: Node, removed: nat)
    requires Ok(n, order, h)
    ensures Remains(left, n, removed, order, h, p, rid)
    decreases n, 0
  {
    hide Tight;
    match n {
      case Leaf(es, _) =>
        var keep;
        keep, removed := RemoveInLeaf(es, p, rid);
        left := NewLeaf(keep);
        if keep != [] {
          NewLeafOk(keep, order);
        }
      case Internal(cs, _) =>
        hide Ok, Cover, ComputeMbr;
        var keep: seq<Node>;
        keep, removed := RemoveFromAll(cs, order, h - 1, p, rid);
        left := NewInternal(keep);
        if keep != [] {
          NewInternalOk(keep, order, h - 1);
        }
    }
  }

  /** The children that still have entries, each after the removal. */
  method RemoveFromAll(cs: seq<Node>, order: nat, ghost h: nat, p: Point, rid: Option<RID>) returns (keep: seq<Node>, removed: nat)
    requires AllOk(cs, order, h)
    ensures AllOk(keep, order, h) && |keep| <= |cs|
    ensures ItemsOf(keep) == StrippedAll(cs, p, rid) && removed + |ItemsOf(keep)| == |ItemsOf(cs)|
    decreases cs, 0
  {
    hide Ok, Items, ItemsOf, Stripped, StrippedAll, KeptSoFar, Remains;
    keep, removed := [], 0;
    KeptNone(cs, order, h, p, rid);
    for i := 0 to |cs|
      invariant KeptSoFar(cs, i, keep, removed, order, h, p, rid)
    {
      var child, n := RemoveFromChild(cs[i], order, h, p, rid);
      KeepStep(cs, i, keep, removed, order, h, p, rid, child, n);
      removed := removed + n;
      if Size(child) > 0 {
        keep := keep + [child];
      }
    }
    KeptAll(cs, keep, removed, order, h, p, rid);
  }

  lemma KeptNone(cs: seq<Node>, order: nat, h: nat, p: Point, rid: Option<RID>)
    ensures KeptSoFar(cs, 0, [], 0, order, h, p, rid)
  {
    assert cs[..0] == [];
  }

  lemma KeptAll(cs: seq<Node>, keep: seq<Node>, removed: nat, order: nat, h: nat, p: Point, rid: Option<RID>)
    requires KeptSoFar(cs, |cs|, keep, removed, order, h, p, rid)
    ensures AllOk(keep, order, h) && |keep| <= |cs|
    ensures ItemsOf(keep) == StrippedAll(cs, p, rid) && removed + |ItemsOf(keep)| == |ItemsOf(cs)|
  {
    assert cs[..|cs|] == cs;
  }

  /** A child is entered only when its box contains the point. */
  method RemoveFromChild(child: Node, order: nat, ghost h: nat, p: Point, rid: Option<RID>) returns (left: Node, removed: nat)
    requires Ok(child, order, h)
    ensures Remains(left, child, removed, order, h, p, rid)
    decreases child, 1
  {
    left, removed := child, 0;
    if Contains(BoxOf(child), p) {
      left, removed := RemoveFrom(child, order, h, p, rid);
    } else {
      StrippedNothing(child, p, rid);
    }
  }

  class RTree {
    const order: nat
    var root: Option<Node>
    ghost var height: nat

    ghost predicate Valid()
      reads this
    {
      order >= 2 && (root.Some? ==> Ok(root.value, order, height))
    }

    /** The stored entries from left to right. */
    function Contents(): seq<Item>
      reads this
    {
      if root.Some? then Items(root.value) else []
    }

    constructor (order: nat)
      requires order >= 2
      ensures Valid() && Contents() == [] && this.order == order
    {
      this.order, root, height := order, None, 0;
    }

    method Insert(p: Point, rid: RID)
      requires Valid()
      modifies this
      ensures Valid() && multiset(Contents()) == multiset(old(Contents())) + multiset{Item(p, rid)}
    {
      hide Ok, Cover, ComputeMbr, ItemsOf;
      if root.None? {
        root, height := Some(NewLeaf([Item(p, rid)])), 0;
        NewLeafOk([Item(p, rid)], order);
        return;
      }
      var left, promoted := InsertInto(root.value, order, height, Item(p, rid));
      root := Some(left);
      if promoted.Some? {
        var kids := [left, promoted.value];
        NewInternalOk(kids, order, height);
        assert kids == [left] + [promoted.value];
        ItemsOfAppend([left], promoted.value);
        ItemsOfSingle(left);
        root, height := Some(NewInternal(kids)), height + 1;
      }
    }

    /** The RIDs stored at a point, as a linear filter would give them. */
    function Search(p: Point): (r: seq<RID>)
      requires Valid()
      reads this
      ensures r == RidsAt(Contents(), p)
      ensures forall rid :: multiset(r)[rid] == multiset(Contents())[Item(p, rid)]
      ensures exists at: seq<nat> :: ReadsPoint(Contents(), at, p, r)
    {
      PointReads(Contents(), p);
      if root.None? then []
      else SearchIsFilter(root.value, order, height, p); RTreeNodes.Search(root.value, p)
    }

    /** The RIDs in the box spanned by two corners, given in any order. */
    function RangeSearch(lo: Point, hi: Point): (r: seq<RID>)
      requires Valid()
      reads this
      ensures r == RidsIn(Contents(), Union(FromPoint(lo), FromPoint(hi)))
      ensures exists at: seq<nat> :: ReadsBox(Contents(), at, lo, hi, r)
    {
      CornersRead(Contents(), lo, hi);
      if root.None? then []
      else
        var box := MBR(Min(lo.x, hi.x), Min(lo.y, hi.y), Max(lo.x, hi.x), Max(lo.y, hi.y));
        RangeIsFilter(root.value, order, height, box);
        Range(root.value, box)
    }

    /**
     Without a RID all entries at the point go and the others keep their order; with a RID
     the pair goes once from every leaf that holds it and nothing else changes.
     */
    method Remove(p: Point, rid: Option<RID>) returns (removed: nat)
      requires Valid()
      modifies this
      ensures Valid() && removed + |Contents()| == |old(Contents())|
      ensures rid.None? ==> Contents() == AwayFrom(old(Contents()), p)
      ensures rid.None? ==> exists at: seq<nat> :: KeepsElsewhere(old(Contents()), at, p, Contents())
      ensures rid.Some? ==> forall it :: it != Item(p, rid.value) ==>
                multiset(Contents())[it] == multiset(old(Contents()))[it]
      ensures rid.Some? && old(root).Some? ==> removed == LeavesWith(old(root).value, Item(p, rid.value))
      ensures rid.Some? ==> (removed > 0 <==> Item(p, rid.value) in old(Contents()))
    {
      hide Tight, Cover, Items;
      removed := 0;
      assert KeepsElsewhere([], [], p, []);
      if root.Some? {
        var left, n := RemoveFrom(root.value, order, height, p, rid);
        if rid.None? {
          StrippedNone(root.value, p);
          var at := AwayFromKeeps(Items(root.value), p);
        } else {
          var pair := Item(p, rid.value);
          StrippedLength(root.value, p, rid.value);
          LeavesWithPositive(root.value, pair);
          forall it: Item
            ensures multiset(Items(left))[it] + (if it == pair then LeavesWith(root.value, it) else 0) == multiset(Items(root.value))[it]
          {
            StrippedPair(root.value, p, rid.value, it);
          }
        }
        removed := n;
        root := if Size(left) > 0 then Some(left) else None;
      }
    }
  }
}
